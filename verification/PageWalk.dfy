/** What the processor translates through the boot page tables. */
module PageWalk {
  import opened Machine
  import opened PageTables

  function Min(a: nat, b: nat): nat { if a < b then a else b }

  /** Memory rounded down to whole 2 MiB pages. */
  function WholePages(size: nat): nat { size / MIB2 * MIB2 }

  /** The identity on RAM below 3 GiB and on the interrupt controllers' window, a fault elsewhere. */
  function Expected(size: nat, va: nat): Option<nat> {
    if va < Min(WholePages(size), 3 * GIB) || APIC_BASE <= va < APIC_END then Some(va) else None
  }

  /** The table slots the source never writes were not present beforehand. */
  predicate UntouchedAbsent(old_: seq<byte>, size: nat)
    requires size < 4 * GIB && |old_| >= 0x10_0000
  {
    && (forall j :: 1 <= j < 512 ==> !Present(Slot(old_, PML4, j)))
    && (forall i :: LastGib(size) < i < 512 && i != 3 ==> !Present(Slot(old_, PDPT, i)))
    && (forall j :: 0 <= j < 512 && j != 502 && j != 503 ==> !Present(Slot(old_, ApicPd(size), j)))
  }

  lemma TableFields(base: nat)
    requires base % 0x1000 == 0 && base < 0x100_0000
    ensures Present(base + TABLE_FLAGS) && !LargePage(base + TABLE_FLAGS) && Frame4K(base + TABLE_FLAGS) == base
  {
    assert (base + 7) / 0x1000 == base / 0x1000;
    assert (base + 7) / 0x80 == base / 0x80 == 32 * (base / 0x1000);
  }

  lemma PageFields(page: nat)
    requires page % MIB2 == 0 && page < 4 * GIB
    ensures var e := page + PAGE_FLAGS;
      Present(e) && LargePage(e) && e / 0x2000 % 0x100 == 0 && Frame2M(e) == page
  {
    var k := page / MIB2;
    var e := page + PAGE_FLAGS;
    RemainderUnique(e, 2, 0x10_0000 * k + 0x43, 1);
    RemainderUnique(e, 0x80, 0x4000 * k + 1, 7);
    RemainderUnique(0x4000 * k + 1, 2, 0x2000 * k, 1);
    RemainderUnique(e, 0x2000, 0x100 * k, 0x87);
    RemainderUnique(0x100 * k, 0x100, k, 0);
    RemainderUnique(e, MIB2, k, 0x87);
  }

  /** A 2 MiB page translates the addresses it contains. */
  lemma PageWalked(mem: seq<byte>, base: nat, va: nat, page: nat)
    requires page % MIB2 == 0 && page < 4 * GIB && page <= va < page + MIB2
    requires TableEntry(mem, base, va / MIB2 % 512) == page + PAGE_FLAGS
    ensures WalkPd(mem, base, va) == Some(va)
  {
    PageFields(page);
    assert va % MIB2 == va - page;
  }

  lemma Indices(va: nat)
    requires va < 512 * GIB
    ensures va / (512 * GIB) % 512 == 0 && va / GIB % 512 == va / GIB < 512
    ensures va == va / GIB * GIB + va / MIB2 % 512 * MIB2 + va % MIB2
  {
    assert va / MIB2 == 512 * (va / GIB) + va % GIB / MIB2;
  }

  lemma LowIsMapped(mem: seq<byte>, old_: seq<byte>, size: nat, va: nat)
    requires size < 4 * GIB && |mem| == |old_| >= 0x10_0000 && Built(mem, old_, size)
    requires va < 512 * GIB
    ensures Walk(mem, PML4, va) == WalkPdpt(mem, PDPT, va)
  {
    Indices(va);
    TableFields(PDPT);
  }

  /** A directory slot decides its 2 MiB of RAM. */
  lemma DirectoryWalked(mem: seq<byte>, size: nat, i: nat, before: u64, va: nat)
    requires size < 4 * GIB && i <= LastGib(size) && i < 3 && va / GIB == i
    requires TableEntry(mem, Pd(i), va / MIB2 % 512) == DirectoryEntry(size, i, va / MIB2 % 512, before)
    ensures WalkPd(mem, Pd(i), va) == if va < WholePages(size) then Some(va) else None
  {
    hide TableEntry;
    var j := va / MIB2 % 512;
    Indices(va);
    MappedIsRam(size, i, j, va);
    if Mapped(size, i, j) {
      assert (i * GIB + j * MIB2) % MIB2 == 0;
      PageWalked(mem, Pd(i), va, i * GIB + j * MIB2);
    }
  }

  lemma RamWalked(mem: seq<byte>, old_: seq<byte>, size: nat, va: nat)
    requires size < 4 * GIB && |mem| == |old_| >= 0x10_0000 && Built(mem, old_, size)
    requires va / GIB <= LastGib(size) && va / GIB < 3
    ensures Walk(mem, PML4, va) == if va < WholePages(size) then Some(va) else None
  {
    hide Load64, Frame2M, WalkPd, DirectoryEntry;
    var (i, j) := (va / GIB, va / MIB2 % 512);
    Indices(va);
    LowIsMapped(mem, old_, size, va);
    TableFields(Pd(i));
    assert Slot(mem, PDPT, i) == Pd(i) + TABLE_FLAGS;
    assert DirSlot(mem, i, j) == DirectoryEntry(size, i, j, DirSlot(old_, i, j));
    DirectoryWalked(mem, size, i, DirSlot(old_, i, j), va);
  }

  /** The loop's condition on the two indices is the size test on the address. */
  lemma MappedIsRam(size: nat, i: nat, j: nat, va: nat)
    requires size < 4 * GIB && va / GIB == i <= LastGib(size) && j == va / MIB2 % 512
    ensures Mapped(size, i, j) <==> va < WholePages(size)
  {
    Indices(va);
    Indices(size);
    assert LastCount(size) == size / MIB2 % 512;
    assert WholePages(size) == LastGib(size) * GIB + LastCount(size) * MIB2;
  }

  lemma WindowWalked(mem: seq<byte>, old_: seq<byte>, size: nat, va: nat)
    requires size < 4 * GIB && |mem| == |old_| >= 0x10_0000 && Built(mem, old_, size)
    requires va / GIB == 3
    ensures APIC_BASE <= va < APIC_END ==> Walk(mem, PML4, va) == Some(va)
    ensures UntouchedAbsent(old_, size) && !(APIC_BASE <= va < APIC_END) ==> Walk(mem, PML4, va) == None
  {
    hide Load64, Frame2M;
    var (apic, j) := (ApicPd(size), va / MIB2 % 512);
    Indices(va);
    LowIsMapped(mem, old_, size, va);
    TableFields(apic);
    assert WalkPdpt(mem, PDPT, va) == WalkPd(mem, apic, va);
    assert TableEntry(mem, apic, j) == Slot(mem, apic, j);
    if j == 502 {
      PageWalked(mem, apic, va, APIC_BASE);
    } else if j == 503 {
      PageWalked(mem, apic, va, APIC_BASE + MIB2);
    }
  }

  /**
   * The walk from cr3, for every 48-bit address and every size a 32-bit count can hold. Only the
   * faults depend on what the never-written slots held before.
   */
  lemma WalkBuilt(mem: seq<byte>, old_: seq<byte>, size: nat, va: nat)
    requires size < 4 * GIB && |mem| == |old_| >= 0x10_0000 && Built(mem, old_, size)
    requires va < 0x1_0000_0000_0000
    ensures Expected(size, va).Some? ==> Walk(mem, PML4, va) == Some(va)
    ensures UntouchedAbsent(old_, size) ==> Walk(mem, PML4, va) == Expected(size, va)
  {
    hide Walk, Built, UntouchedAbsent, Slot;
    var i := va / GIB;
    assert WholePages(size) <= size < LastGib(size) * GIB + GIB;
    if i == 3 {
      WindowWalked(mem, old_, size, va);
    } else if i < 3 && i <= LastGib(size) {
      RamWalked(mem, old_, size, va);
    } else {
      FarFaults(mem, old_, size, va);
    }
  }

  /** Beyond the last directory nothing was written: what was there before decides. */
  lemma FarDecides(mem: seq<byte>, old_: seq<byte>, size: nat, va: nat)
    requires size < 4 * GIB && |mem| == |old_| >= 0x10_0000 && Built(mem, old_, size)
    requires va < 0x1_0000_0000_0000 && va / GIB > LastGib(size) && va / GIB != 3
    ensures Walk(mem, PML4, va) == StaleWalk(mem, old_, size, va)
  {
    hide Load64, WalkPdpte;
    var i := va / GIB;
    if i < 512 {
      Indices(va);
      LowIsMapped(mem, old_, size, va);
      assert Slot(mem, PDPT, i) == Slot(old_, PDPT, i);
    } else {
      hide WalkPml4e;
      var j := va / (512 * GIB);
      assert 1 <= j < 512;
      assert Slot(mem, PML4, j) == Slot(old_, PML4, j);
    }
  }

  lemma FarFaults(mem: seq<byte>, old_: seq<byte>, size: nat, va: nat)
    requires size < 4 * GIB && |mem| == |old_| >= 0x10_0000 && Built(mem, old_, size)
    requires va < 0x1_0000_0000_0000 && va / GIB > LastGib(size) && va / GIB != 3
    ensures UntouchedAbsent(old_, size) ==> Walk(mem, PML4, va) == None
  {
    hide Walk, Load64, Built, TableEntry, WalkPd, WalkPdpt, Present, LargePage, Frame1G, Frame4K;
    FarDecides(mem, old_, size, va);
    if UntouchedAbsent(old_, size) {
      if va / GIB < 512 {
        assert !Present(Slot(old_, PDPT, va / GIB));
      } else {
        assert !Present(Slot(old_, PML4, va / (512 * GIB)));
      }
    }
  }

  /** The walk of an address the tables do not map, from the entry its untouched slot held before. */
  function StaleWalk(mem: seq<byte>, old_: seq<byte>, size: nat, va: nat): Option<nat>
    requires size < 4 * GIB && |old_| >= 0x10_0000 && va < 0x1_0000_0000_0000
  {
    if va / GIB == 3 then WalkPde(mem, Slot(old_, ApicPd(size), va / MIB2 % 512), va)
    else if va / GIB <= LastGib(size) then None
    else if va / GIB < 512 then WalkPdpte(mem, Slot(old_, PDPT, va / GIB), va)
    else WalkPml4e(mem, Slot(old_, PML4, va / (512 * GIB)), va)
  }

  /** With any earlier contents of the slots that were never written, where every other address goes. */
  lemma WalkElsewhere(mem: seq<byte>, old_: seq<byte>, size: nat, va: nat)
    requires size < 4 * GIB && |mem| == |old_| >= 0x10_0000 && Built(mem, old_, size)
    requires va < 0x1_0000_0000_0000 && Expected(size, va) == None
    ensures Walk(mem, PML4, va) == StaleWalk(mem, old_, size, va)
  {
    hide Walk, WalkPde, WalkPdpte, WalkPml4e, Built, Slot;
    var i := va / GIB;
    if i == 3 {
      Indices(va);
      StaleSlotDecides(mem, old_, size, va);
    } else if i <= LastGib(size) {
      RamWalked(mem, old_, size, va);
    } else {
      FarDecides(mem, old_, size, va);
    }
  }

  /** An entry lets user code write. */
  predicate Permits(e: u64) { e / 2 % 2 == 1 && e / 4 % 2 == 1 }

  /** All three entries on the way to a 2 MiB page do. */
  predicate WalkPermits(mem: seq<byte>, cr3: nat, va: nat) {
    var e4 := TableEntry(mem, cr3, va / (512 * GIB) % 512);
    var e3 := TableEntry(mem, Frame4K(e4), va / GIB % 512);
    var e2 := TableEntry(mem, Frame4K(e3), va / MIB2 % 512);
    Permits(e4) && Permits(e3) && Permits(e2)
  }

  lemma FlagsPermit(base: nat)
    requires base % 0x1000 == 0 && base < 4 * GIB
    ensures Permits(base + TABLE_FLAGS) && Permits(base + PAGE_FLAGS)
  {
    var k := base / 0x1000;
    assert base == 0x1000 * k;
    BitsSet(base + 0x07, 0x200 * k, 7);
    BitsSet(base + 0x87, 0x200 * k + 16, 7);
  }

  lemma BitsSet(e: u64, q: nat, r: nat)
    requires e == 8 * q + r && r == 7
    ensures Permits(e)
  {
    RemainderUnique(e, 2, 4 * q + 3, 1);
    RemainderUnique(4 * q + 3, 2, 2 * q + 1, 1);
    RemainderUnique(e, 4, 2 * q + 1, 3);
    RemainderUnique(2 * q + 1, 2, q, 1);
  }

  /** Everything that is mapped can be written by user code. */
  lemma PermissionsBuilt(mem: seq<byte>, old_: seq<byte>, size: nat, va: nat)
    requires size < 4 * GIB && |mem| == |old_| >= 0x10_0000 && Built(mem, old_, size)
    requires Expected(size, va).Some?
    ensures WalkPermits(mem, PML4, va)
  {
    hide Load64, Frame2M, Permits, DirectoryEntry;
    var (i, j) := (va / GIB, va / MIB2 % 512);
    var d := if i == 3 then ApicPd(size) else Pd(i);
    Indices(va);
    FlagsPermit(PDPT);
    FlagsPermit(d);
    TableFields(PDPT);
    TableFields(d);
    assert TableEntry(mem, PML4, 0) == PDPT + TABLE_FLAGS;
    if i == 3 {
      assert TableEntry(mem, PDPT, 3) == d + TABLE_FLAGS;
      assert j == 502 || j == 503;
      assert TableEntry(mem, d, j) == APIC_BASE + (j - 502) * MIB2 + PAGE_FLAGS;
      FlagsPermit(APIC_BASE + (j - 502) * MIB2);
    } else {
      assert Slot(mem, PDPT, i) == d + TABLE_FLAGS;
      assert DirSlot(mem, i, j) == DirectoryEntry(size, i, j, DirSlot(old_, i, j));
      MappedIsRam(size, i, j, va);
      MappedEntry(size, i, j, DirSlot(old_, i, j));
      FlagsPermit(i * GIB + j * MIB2);
    }
  }

  lemma MappedEntry(size: nat, i: nat, j: nat, before: u64)
    requires i < 4 && j < 512 && Mapped(size, i, j)
    ensures DirectoryEntry(size, i, j, before) == i * GIB + j * MIB2 + PAGE_FLAGS
    ensures (i * GIB + j * MIB2) % 0x1000 == 0 && i * GIB + j * MIB2 < 4 * GIB
  {
  }

  predicate AllReachable(mem: seq<byte>, size: nat) {
    forall va: nat :: va < size ==> Walk(mem, PML4, va) == Some(va)
  }

  /**
   * Up to 3 GiB all of RAM is reachable exactly when it is whole pages; beyond 3 GiB it is not unless
   * slots that were never written happen to map it.
   */
  lemma RamReachable(mem: seq<byte>, old_: seq<byte>, size: nat)
    requires size < 4 * GIB && |mem| == |old_| >= 0x10_0000 && Built(mem, old_, size)
    ensures size <= 3 * GIB ==> (AllReachable(mem, size) <==> size % MIB2 == 0)
    ensures UntouchedAbsent(old_, size) ==> (AllReachable(mem, size) <==> size % MIB2 == 0 && size <= 3 * GIB)
  {
    hide Walk, Built, UntouchedAbsent;
    if size > 3 * GIB {
      WalkBuilt(mem, old_, size, 3 * GIB);
      assert UntouchedAbsent(old_, size) ==> Walk(mem, PML4, 3 * GIB) == None;
    } else if size % MIB2 != 0 {
      var va := WholePages(size);
      RamWalked(mem, old_, size, va);
      assert va < size && Walk(mem, PML4, va) == None;
    } else {
      forall va: nat | va < size ensures Walk(mem, PML4, va) == Some(va) {
        WalkBuilt(mem, old_, size, va);
      }
    }
  }

  /** What the window's directory held before decides its untouched slots. */
  lemma StaleSlotDecides(mem: seq<byte>, old_: seq<byte>, size: nat, va: nat)
    requires size < 4 * GIB && |mem| == |old_| >= 0x10_0000 && Built(mem, old_, size)
    requires va / GIB == 3 && va / MIB2 % 512 != 502 && va / MIB2 % 512 != 503
    ensures Walk(mem, PML4, va) == WalkPde(mem, Slot(old_, ApicPd(size), va / MIB2 % 512), va)
  {
    hide WalkPde, Load64;
    var (apic, j) := (ApicPd(size), va / MIB2 % 512);
    Indices(va);
    LowIsMapped(mem, old_, size, va);
    TableFields(apic);
    assert WalkPdpt(mem, PDPT, va) == WalkPd(mem, apic, va);
    assert TableEntry(mem, apic, j) == Slot(mem, apic, j);
  }

  /** An address of such a slot, absent or a large page, faults exactly when the slot was absent or malformed. */
  lemma StaleSlotMaps(mem: seq<byte>, old_: seq<byte>, size: nat, va: nat)
    requires size < 4 * GIB && |mem| == |old_| >= 0x10_0000 && Built(mem, old_, size)
    requires va / GIB == 3 && va / MIB2 % 512 != 502 && va / MIB2 % 512 != 503
    ensures Expected(size, va) == None
    ensures var s := Slot(old_, ApicPd(size), va / MIB2 % 512);
      !Present(s) || LargePage(s) ==> (Walk(mem, PML4, va) == None <==> !Present(s) || s / 0x2000 % 0x100 != 0)
  {
    StaleSlotDecides(mem, old_, size, va);
    Indices(va);
    hide Walk, Built, Load64, Present, LargePage, Frame2M;
  }

  // ----- the configured memory size (kvm.cpp)

  const DEFAULT_SIZE := 0x80_0000

  /** Guest memory for a configured number of MiB: odd counts are rounded up, others out of range ignored. */
  function GuestMemorySize(mib: u32): (size: nat)
    ensures 8 * 0x10_0000 <= size <= GIB && size % MIB2 == 0
  {
    if 8 <= mib < 1024 then
      (if mib % 2 == 0 then mib else mib + 1) * 0x10_0000 % 0x1_0000_0000
    else DEFAULT_SIZE
  }

  /** The least number of whole 2 MiB pages that holds what was configured, or 8 MiB. */
  lemma SizeIsLeast(mib: u32)
    ensures var size := GuestMemorySize(mib);
      if 8 <= mib < 1024 then
        && size % 0x20_0000 == 0 && mib * 0x10_0000 <= size
        && forall s: nat :: s % 0x20_0000 == 0 && mib * 0x10_0000 <= s ==> size <= s
      else size == 8 * 0x10_0000
  {
    if 8 <= mib < 1024 {
      var size := GuestMemorySize(mib);
      forall s: nat | s % 0x20_0000 == 0 && mib * 0x10_0000 <= s ensures size <= s {
        assert s == s / 0x20_0000 * 0x20_0000;
      }
    }
  }

  /** Whatever is configured, the walk reaches all of RAM and, below the window, nothing past it. */
  lemma ConfiguredRamIsMapped(mib: u32, mem: seq<byte>, old_: seq<byte>, va: nat)
    requires |mem| == |old_| == GuestMemorySize(mib) && va < APIC_BASE
    requires Built(mem, old_, |mem|) && UntouchedAbsent(old_, |mem|)
    ensures Walk(mem, PML4, va) == if va < |mem| then Some(va) else None
  {
    WalkBuilt(mem, old_, |mem|, va);
  }
}
