/** The boot page tables, and the processor's walk over them (bootloader/Bootloader.cpp). */
module PageTables {
  import opened Machine

  const GIB := 0x4000_0000
  const MIB2 := 0x20_0000

  const PML4 := 0x2_0000
  const PDPT := 0x3_0000

  /** The page directory for the i-th GiB. */
  function Pd(i: nat): nat { 0x4_0000 + 0x1_0000 * i }

  const APIC_BASE := 0xfec0_0000
  const APIC_END := 0xff00_0000

  /** present, writable, user; with the page-size bit for 2 MiB pages. */
  const TABLE_FLAGS := 0x07
  const PAGE_FLAGS := 0x87

  // ----- memory as 64-bit slots

  function Load64(mem: seq<byte>, a: nat): (v: u64)
    requires a + 8 <= |mem|
  {
    Pow256Values();
    ToFromBytes(mem[a..a + 8]);
    FromBytes(mem[a..a + 8])
  }

  /** Entry j of the table at base. */
  function Slot(mem: seq<byte>, base: nat, j: nat): u64
    requires base + 8 * j + 8 <= |mem|
  {
    Load64(mem, base + 8 * j)
  }

  /** One 64-bit store. */
  function Stored(mem: seq<byte>, a: nat, v: u64): (r: seq<byte>)
    requires a + 8 <= |mem|
    ensures |r| == |mem|
  {
    Patch(mem, a, ToBytes(v, 8))
  }

  lemma StoredLoad(mem: seq<byte>, a: nat, v: u64)
    requires a + 8 <= |mem|
    ensures Load64(Stored(mem, a, v), a) == v
    ensures forall b: nat :: b + 8 <= |mem| && (b + 8 <= a || a + 8 <= b) ==>
              Load64(Stored(mem, a, v), b) == Load64(mem, b)
    ensures forall b: nat :: b < |mem| && !(a <= b < a + 8) ==> Stored(mem, a, v)[b] == mem[b]
  {
    var r := Stored(mem, a, v);
    assert r[a..a + 8] == ToBytes(v, 8);
    FromToBytes(v, 8);
    Pow256Values();
    forall b: nat | b + 8 <= |mem| && (b + 8 <= a || a + 8 <= b) ensures Load64(r, b) == Load64(mem, b) {
      assert r[b..b + 8] == mem[b..b + 8];
    }
  }

  method Store64(mem: array<byte>, a: nat, v: u64)
    requires a + 8 <= mem.Length
    modifies mem
    ensures mem[..] == Stored(old(mem[..]), a, v)
  {
    var b := ToBytes(v, 8);
    forall i | 0 <= i < 8 { mem[a + i] := b[i]; }
  }

  method ReadSlot(mem: array<byte>, a: nat) returns (v: u64)
    requires a + 8 <= mem.Length
    ensures v == Load64(mem[..], a)
  {
    v := Load64(mem[..], a);
  }

  // ----- the 4-level walk (Intel SDM volume 3A, section 4.5)

  predicate Present(e: u64) { e % 2 == 1 }

  predicate LargePage(e: u64) { e / 0x80 % 2 == 1 }

  /** Physical-address bits 51..n of an entry, as an address. */
  function Frame4K(e: u64): nat { e / 0x1000 % 0x100_0000_0000 * 0x1000 }

  function Frame2M(e: u64): nat { e / MIB2 % 0x8000_0000 * MIB2 }

  function Frame1G(e: u64): nat { e / GIB % 0x40_0000 * GIB }

  /** Reading entry j of a table; a table outside RAM holds nothing. */
  function TableEntry(mem: seq<byte>, base: nat, j: nat): u64 {
    if base + 8 * j + 8 <= |mem| then Slot(mem, base, j) else 0
  }

  /** The translation of a 48-bit address, None for a page fault (reserved bits set count as one). */
  function Walk(mem: seq<byte>, cr3: nat, va: nat): Option<nat> {
    WalkPml4e(mem, TableEntry(mem, cr3, va / (512 * GIB) % 512), va)
  }

  function WalkPml4e(mem: seq<byte>, e4: u64, va: nat): Option<nat> {
    if !Present(e4) || LargePage(e4) then None else WalkPdpt(mem, Frame4K(e4), va)
  }

  function WalkPdpt(mem: seq<byte>, base: nat, va: nat): Option<nat> {
    WalkPdpte(mem, TableEntry(mem, base, va / GIB % 512), va)
  }

  function WalkPdpte(mem: seq<byte>, e3: u64, va: nat): Option<nat> {
    if !Present(e3) then None
    else if LargePage(e3) then
      if e3 / 0x2000 % 0x2_0000 != 0 then None else Some(Frame1G(e3) + va % GIB)
    else WalkPd(mem, Frame4K(e3), va)
  }

  function WalkPd(mem: seq<byte>, base: nat, va: nat): Option<nat> {
    WalkPde(mem, TableEntry(mem, base, va / MIB2 % 512), va)
  }

  function WalkPde(mem: seq<byte>, e2: u64, va: nat): Option<nat> {
    if !Present(e2) then None
    else if LargePage(e2) then
      if e2 / 0x2000 % 0x100 != 0 then None else Some(Frame2M(e2) + va % MIB2)
    else
      var e1 := TableEntry(mem, Frame4K(e2), va / 0x1000 % 512);
      if !Present(e1) then None else Some(Frame4K(e1) + va % 0x1000)
  }

  // ----- what setup_page_tables builds

  /** The GiB that holds the end of memory, and how many 2 MiB pages of it exist. */
  function LastGib(size: nat): nat { size / GIB }

  function LastCount(size: nat): nat { size % GIB / MIB2 }

  predicate Mapped(size: nat, i: nat, j: nat) {
    i != LastGib(size) || j < LastCount(size)
  }

  /** A directory slot of GiB i after its loop. */
  function DirectoryEntry(size: nat, i: nat, j: nat, before: u64): u64
    requires i < 4 && j < 512
  {
    if Mapped(size, i, j) then i * GIB + j * MIB2 + PAGE_FLAGS else before - before % 2
  }

  /** The directory for the interrupt controllers' window follows the last one for RAM. */
  function ApicPd(size: nat): nat { Pd(LastGib(size) + 1) }

  /** Entry j of the directory for GiB i. */
  function DirSlot(mem: seq<byte>, i: nat, j: nat): u64
    requires Pd(i) + 8 * j + 8 <= |mem|
  {
    Slot(mem, Pd(i), j)
  }

  /** The bytes written once the top-level entry and n directories are in place. */
  predicate Touched(a: nat, n: nat) {
    PML4 <= a < PML4 + 8 || PDPT <= a < PDPT + 8 * n || (Pd(0) <= a < Pd(n) && a % 0x1_0000 < 0x1000)
  }

  /** Memory after the top-level entry and the first n directories were written over old_. */
  predicate BuiltUpTo(mem: seq<byte>, old_: seq<byte>, size: nat, n: nat)
    requires n <= 4 && |mem| == |old_| >= 0x10_0000
  {
    && Slot(mem, PML4, 0) == PDPT + TABLE_FLAGS
    && (forall i :: 0 <= i < n ==> Slot(mem, PDPT, i) == Pd(i) + TABLE_FLAGS)
    && (forall i, j :: 0 <= i < n && 0 <= j < 512 ==>
          DirSlot(mem, i, j) == DirectoryEntry(size, i, j, DirSlot(old_, i, j)))
    && (forall a :: 0 <= a < |mem| && !Touched(a, n) ==> mem[a] == old_[a])
  }

  /** Memory after all tables were built over old_. */
  predicate Built(mem: seq<byte>, old_: seq<byte>, size: nat)
    requires size < 4 * GIB && |mem| == |old_| >= 0x10_0000
  {
    var (last, apic) := (LastGib(size), ApicPd(size));
    && Slot(mem, PML4, 0) == PDPT + TABLE_FLAGS
    && (forall j :: 1 <= j < 512 ==> Slot(mem, PML4, j) == Slot(old_, PML4, j))
    && (forall i :: 0 <= i <= last && i != 3 ==> Slot(mem, PDPT, i) == Pd(i) + TABLE_FLAGS)
    && Slot(mem, PDPT, 3) == apic + TABLE_FLAGS
    && (forall i :: last < i < 512 && i != 3 ==> Slot(mem, PDPT, i) == Slot(old_, PDPT, i))
    && (forall i, j :: 0 <= i <= last && 0 <= j < 512 ==>
          DirSlot(mem, i, j) == DirectoryEntry(size, i, j, DirSlot(old_, i, j)))
    && Slot(mem, apic, 502) == APIC_BASE + PAGE_FLAGS
    && Slot(mem, apic, 503) == APIC_BASE + MIB2 + PAGE_FLAGS
    && (forall j :: 0 <= j < 512 && j != 502 && j != 503 ==> Slot(mem, apic, j) == Slot(old_, apic, j))
    && (forall a :: 0 <= a < |mem| && (a < PML4 || Pd(5) <= a) ==> mem[a] == old_[a])
  }

  // ----- building them

  /** Equal bytes make equal slots. */
  lemma SameLoad(m: seq<byte>, m': seq<byte>, a: nat)
    requires a + 8 <= |m| && a + 8 <= |m'| && forall b :: a <= b < a + 8 ==> m[b] == m'[b]
    ensures Load64(m, a) == Load64(m', a)
  {
    assert m[a..a + 8] == m'[a..a + 8];
  }

  /** The inner loop: the 512 slots of one directory. */
  method FillDirectory(mem: array<byte>, size: nat, i: nat)
    requires mem.Length >= 0x10_0000 && i < 4
    modifies mem
    ensures forall j :: 0 <= j < 512 ==>
      DirSlot(mem[..], i, j) == DirectoryEntry(size, i, j, DirSlot(old(mem[..]), i, j))
    ensures forall a :: 0 <= a < mem.Length && !(Pd(i) <= a < Pd(i) + 0x1000) ==> mem[..][a] == old(mem[..])[a]
  {
    hide Stored, Load64;
    ghost var before := mem[..];
    for j := 0 to 512
      invariant forall k :: 0 <= k < 512 ==>
        DirSlot(mem[..], i, k) ==
        if k < j then DirectoryEntry(size, i, k, DirSlot(before, i, k)) else DirSlot(before, i, k)
      invariant forall a :: 0 <= a < mem.Length && !(Pd(i) <= a < Pd(i) + 0x1000) ==> mem[..][a] == before[a]
    {
      var at := Pd(i) + 8 * j;
      ghost var m := mem[..];
      var was := ReadSlot(mem, at);
      assert was == DirSlot(m, i, j);
      var entry := if i != size / GIB || j < size % GIB / MIB2 then i * GIB + j * MIB2 + PAGE_FLAGS else was - was % 2;
      Store64(mem, at, entry);
      StoredLoad(m, at, entry);
      forall k | 0 <= k < 512 && k != j ensures DirSlot(mem[..], i, k) == DirSlot(m, i, k) {
        assert Load64(mem[..], Pd(i) + 8 * k) == Load64(m, Pd(i) + 8 * k);
      }
    }
  }

  /** One turn of the outer loop keeps what is there and adds directory n. */
  lemma DirectoryAdded(mem: seq<byte>, mid: seq<byte>, m: seq<byte>, old_: seq<byte>, size: nat, n: nat)
    requires n < 4 && |mem| == |mid| == |m| == |old_| >= 0x10_0000
    requires BuiltUpTo(m, old_, size, n) && mid == Stored(m, PDPT + 8 * n, Pd(n) + TABLE_FLAGS)
    requires forall j :: 0 <= j < 512 ==> DirSlot(mem, n, j) == DirectoryEntry(size, n, j, DirSlot(mid, n, j))
    requires forall a :: 0 <= a < |mem| && !(Pd(n) <= a < Pd(n) + 0x1000) ==> mem[a] == mid[a]
    ensures BuiltUpTo(mem, old_, size, n + 1)
  {
    hide Stored, Load64;
    StoredLoad(m, PDPT + 8 * n, Pd(n) + TABLE_FLAGS);
    SameLoad(mem, m, PML4);
    forall i | 0 <= i <= n ensures Slot(mem, PDPT, i) == Pd(i) + TABLE_FLAGS {
      SameLoad(mem, mid, PDPT + 8 * i);
      assert i < n ==> Slot(m, PDPT, i) == Pd(i) + TABLE_FLAGS;
    }
    forall i, j | 0 <= i <= n && 0 <= j < 512
      ensures DirSlot(mem, i, j) == DirectoryEntry(size, i, j, DirSlot(old_, i, j))
    {
      if i == n {
        SameLoad(mid, old_, Pd(n) + 8 * j);
      } else {
        SameLoad(mem, m, Pd(i) + 8 * j);
        assert DirSlot(m, i, j) == DirectoryEntry(size, i, j, DirSlot(old_, i, j));
      }
    }
  }

  /** An 8-byte slot none of the stores for the interrupt controllers touches. */
  predicate AwayFromWindow(b: nat, apic: nat) {
    (b + 8 <= PDPT + 24 || PDPT + 32 <= b) && (b + 8 <= apic + 8 * 502 || apic + 8 * 504 <= b)
  }

  /** The two stores for the interrupt controllers complete the tables. */
  lemma WindowAdded(m: seq<byte>, old_: seq<byte>, size: nat)
    requires size < 4 * GIB && |m| == |old_| >= 0x10_0000 && BuiltUpTo(m, old_, size, LastGib(size) + 1)
    ensures var apic := ApicPd(size);
      var m1 := Stored(m, PDPT + 24, apic + TABLE_FLAGS);
      var m2 := Stored(m1, apic + 8 * 502, APIC_BASE + PAGE_FLAGS);
      var m3 := Stored(m2, PDPT + 24, apic + TABLE_FLAGS);
      Built(Stored(m3, apic + 8 * 503, APIC_BASE + MIB2 + PAGE_FLAGS), old_, size)
  {
    hide Stored, Load64;
    var (last, apic) := (LastGib(size), ApicPd(size));
    var m1 := Stored(m, PDPT + 24, apic + TABLE_FLAGS);
    var m2 := Stored(m1, apic + 8 * 502, APIC_BASE + PAGE_FLAGS);
    var m3 := Stored(m2, PDPT + 24, apic + TABLE_FLAGS);
    var m4 := Stored(m3, apic + 8 * 503, APIC_BASE + MIB2 + PAGE_FLAGS);
    StoredLoad(m, PDPT + 24, apic + TABLE_FLAGS);
    StoredLoad(m1, apic + 8 * 502, APIC_BASE + PAGE_FLAGS);
    StoredLoad(m2, PDPT + 24, apic + TABLE_FLAGS);
    StoredLoad(m3, apic + 8 * 503, APIC_BASE + MIB2 + PAGE_FLAGS);
    forall b: nat | b + 8 <= |m| && AwayFromWindow(b, apic)
      ensures Load64(m4, b) == Load64(m, b)
    {
      assert Load64(m4, b) == Load64(m3, b) == Load64(m2, b) == Load64(m1, b) == Load64(m, b);
    }
    WindowSlots(m4, m, old_, size);
  }

  lemma WindowSlots(mem: seq<byte>, m: seq<byte>, old_: seq<byte>, size: nat)
    requires size < 4 * GIB && |mem| == |m| == |old_| >= 0x10_0000 && BuiltUpTo(m, old_, size, LastGib(size) + 1)
    requires var apic := ApicPd(size);
      && Slot(mem, PDPT, 3) == apic + TABLE_FLAGS
      && Slot(mem, apic, 502) == APIC_BASE + PAGE_FLAGS
      && Slot(mem, apic, 503) == APIC_BASE + MIB2 + PAGE_FLAGS
      && (forall b: nat :: b + 8 <= |m| && AwayFromWindow(b, apic) ==> Load64(mem, b) == Load64(m, b))
      && (forall a :: 0 <= a < |m| && (a < PDPT || apic + 0x1000 <= a) ==> mem[a] == m[a])
    ensures Built(mem, old_, size)
  {
    hide Stored, Load64;
    var (last, apic) := (LastGib(size), ApicPd(size));
    forall j | 1 <= j < 512 ensures Slot(mem, PML4, j) == Slot(old_, PML4, j) {
      SameLoad(m, old_, PML4 + 8 * j);
    }
    forall i | last < i < 512 && i != 3 ensures Slot(mem, PDPT, i) == Slot(old_, PDPT, i) {
      SameLoad(m, old_, PDPT + 8 * i);
    }
    forall i, j | 0 <= i <= last && 0 <= j < 512
      ensures DirSlot(mem, i, j) == DirectoryEntry(size, i, j, DirSlot(old_, i, j))
    {
      assert Load64(mem, Pd(i) + 8 * j) == Load64(m, Pd(i) + 8 * j);
      assert DirSlot(m, i, j) == DirectoryEntry(size, i, j, DirSlot(old_, i, j));
    }
    forall j | 0 <= j < 512 && j != 502 && j != 503 ensures Slot(mem, apic, j) == Slot(old_, apic, j) {
      SameLoad(m, old_, apic + 8 * j);
    }
  }

  /** Builds the tables for a memory of the given size and returns the value for cr3. */
  method SetupPageTables(mem: array<byte>, size: nat) returns (cr3: nat)
    requires size < 4 * GIB && mem.Length >= 0x10_0000
    modifies mem
    ensures cr3 == PML4 && Built(mem[..], old(mem[..]), size)
  {
    hide Built;
    hide Stored, Load64;
    ghost var before := mem[..];
    var last := size / GIB;
    Store64(mem, PML4, PDPT + TABLE_FLAGS);
    StoredLoad(before, PML4, PDPT + TABLE_FLAGS);
    var pd := Pd(0);
    for i := 0 to last + 1
      invariant pd == Pd(i)
      invariant BuiltUpTo(mem[..], before, size, i)
    {
      ghost var m := mem[..];
      Store64(mem, PDPT + 8 * i, pd + TABLE_FLAGS);
      ghost var mid := mem[..];
      FillDirectory(mem, size, i);
      DirectoryAdded(mem[..], mid, m, before, size, i);
      pd := pd + 0x1_0000;
    }
    WindowAdded(mem[..], before, size);
    Store64(mem, PDPT + 24, pd + TABLE_FLAGS);
    Store64(mem, pd + 8 * 502, APIC_BASE + PAGE_FLAGS);
    Store64(mem, PDPT + 24, pd + TABLE_FLAGS);
    Store64(mem, pd + 8 * 503, APIC_BASE + MIB2 + PAGE_FLAGS);
    cr3 := PML4;
  }
}
