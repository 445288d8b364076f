/** Segment descriptors, and the memory side of the whole boot (bootloader/Bootloader.cpp). */
module BootSequence {
  import opened Machine
  import opened ElfLoader
  import opened PageTables
  import opened PageWalk

  const GDT := 0x1_0000

  /** A KVM segment; the flag fields are as wide as their descriptor bits. */
  datatype Segment = Segment(
    base: u64, limit: u32, selector: word, kind: nat, present: nat, dpl: nat, db: nat, s: nat, l: nat, g: nat, avl: nat)
  {
    predicate Valid() {
      kind < 16 && present < 2 && dpl < 4 && db < 2 && s < 2 && l < 2 && g < 2 && avl < 2
    }
    function Limit20(): nat { (if g == 1 then limit / 0x1000 else limit) % 0x10_0000 }
  }

  /** The descriptor fill_segment_descriptor stores; base bits 24..31 are shifted out of the word. */
  function Descriptor(seg: Segment): (d: u64)
    requires seg.Valid()
  {
    var limit := seg.Limit20();
    limit % 0x1_0000
    + seg.base % 0x100_0000 * 0x1_0000
    + seg.kind * 0x100_0000_0000
    + seg.s * 0x1000_0000_0000
    + seg.dpl * 0x2000_0000_0000
    + seg.present * 0x8000_0000_0000
    + limit / 0x1_0000 * 0x1_0000_0000_0000
    + seg.avl * 0x10_0000_0000_0000
    + seg.l * 0x20_0000_0000_0000
    + seg.db * 0x40_0000_0000_0000
    + seg.g * 0x80_0000_0000_0000
  }

  // The fields of a descriptor as the processor reads them (Intel SDM volume 3A, section 3.4.5).

  function DescBase(d: u64): nat { d / 0x1_0000 % 0x100_0000 + d / 0x100_0000_0000_0000 % 0x100 * 0x100_0000 }

  function DescLimit20(d: u64): nat { d % 0x1_0000 + d / 0x1_0000_0000_0000 % 0x10 * 0x1_0000 }

  /** Type, S, DPL and P. */
  function DescAccess(d: u64): (nat, nat, nat, nat) {
    (d / 0x100_0000_0000 % 0x10, d / 0x1000_0000_0000 % 2, d / 0x2000_0000_0000 % 4, d / 0x8000_0000_0000 % 2)
  }

  /** AVL, L, D/B and G. */
  function DescFlags(d: u64): (nat, nat, nat, nat) {
    (d / 0x10_0000_0000_0000 % 2, d / 0x20_0000_0000_0000 % 2, d / 0x40_0000_0000_0000 % 2, d / 0x80_0000_0000_0000 % 2)
  }

  /** The fields of a word put together from its parts, from the top down. */
  lemma HighFields(d: u64, low: nat, lim: nat, avl: nat, l: nat, db: nat, g: nat)
    requires low < 0x1_0000_0000_0000 && lim < 16 && avl < 2 && l < 2 && db < 2 && g < 2
    requires d == low + 0x1_0000_0000_0000 * (lim + 16 * (avl + 2 * (l + 2 * (db + 2 * g))))
    ensures d / 0x1_0000_0000_0000 % 0x10 == lim && DescFlags(d) == (avl, l, db, g)
    ensures d % 0x1_0000_0000_0000 == low && d / 0x100_0000_0000_0000 == 0
  {
    var (r54, r53) := (db + 2 * g, l + 2 * (db + 2 * g));
    var r52 := avl + 2 * r53;
    Field(d, 0x1_0000_0000_0000, lim + 16 * r52, low, 16, lim, r52);
    var d52 := low + 0x1_0000_0000_0000 * lim;
    Field(d, 0x10_0000_0000_0000, r52, d52, 2, avl, r53);
    var d53 := d52 + 0x10_0000_0000_0000 * avl;
    Field(d, 0x20_0000_0000_0000, r53, d53, 2, l, r54);
    var d54 := d53 + 0x20_0000_0000_0000 * l;
    Field(d, 0x40_0000_0000_0000, r54, d54, 2, db, g);
    var d55 := d54 + 0x40_0000_0000_0000 * db;
    Field(d, 0x80_0000_0000_0000, g, d55, 2, g, 0);
    Field(d, 0x100_0000_0000_0000, 0, d, 2, 0, 0);
  }

  lemma LowFields(d: u64, lim: nat, base: nat, kind: nat, s: nat, dpl: nat, present: nat, high: nat)
    requires lim < 0x1_0000 && base < 0x100_0000 && kind < 16 && s < 2 && dpl < 4 && present < 2
    requires d == lim + 0x1_0000 * (base + 0x100_0000 * (kind + 16 * (s + 2 * (dpl + 4 * (present + 2 * high)))))
    ensures d % 0x1_0000 == lim && d / 0x1_0000 % 0x100_0000 == base && DescAccess(d) == (kind, s, dpl, present)
  {
    var r47 := present + 2 * high;
    var r45 := dpl + 4 * r47;
    var r44 := s + 2 * r45;
    var r40 := kind + 16 * r44;
    Field(d, 0x1_0000, base + 0x100_0000 * r40, lim, 0x100_0000, base, r40);
    var d40 := lim + 0x1_0000 * base;
    Field(d, 0x100_0000_0000, r40, d40, 16, kind, r44);
    var d44 := d40 + 0x100_0000_0000 * kind;
    Field(d, 0x1000_0000_0000, r44, d44, 2, s, r45);
    var d45 := d44 + 0x1000_0000_0000 * s;
    Field(d, 0x2000_0000_0000, r45, d45, 4, dpl, r47);
    Field(d, 0x8000_0000_0000, r47, d45 + 0x2000_0000_0000 * dpl, 2, present, high);
  }

  /** The processor reads back what was filled in, except that only 24 bits of the base survive. */
  lemma DescriptorReadsBack(seg: Segment)
    requires seg.Valid()
    ensures var d := Descriptor(seg);
      && DescLimit20(d) == seg.Limit20()
      && DescAccess(d) == (seg.kind, seg.s, seg.dpl, seg.present)
      && DescFlags(d) == (seg.avl, seg.l, seg.db, seg.g)
      && DescBase(d) == seg.base % 0x100_0000
    ensures DescBase(Descriptor(seg)) == seg.base <==> seg.base < 0x100_0000
  {
    var (d, limit, base) := (Descriptor(seg), seg.Limit20(), seg.base % 0x100_0000);
    var (lo, hi) := (limit % 0x1_0000, limit / 0x1_0000);
    var high := hi + 16 * (seg.avl + 2 * (seg.l + 2 * (seg.db + 2 * seg.g)));
    var low := lo + 0x1_0000 * (base + 0x100_0000 * (seg.kind + 16 * (seg.s + 2 * (seg.dpl + 4 * seg.present))));
    hide DescAccess, DescFlags;
    assert d == low + 0x1_0000_0000_0000 * high;
    HighFields(d, low, hi, seg.avl, seg.l, seg.db, seg.g);
    LowFields(d, lo, base, seg.kind, seg.s, seg.dpl, seg.present, high);
  }

  /** A field of width w above the low part of d. */
  lemma Field(d: nat, p: nat, r: nat, low: nat, w: nat, f: nat, above: nat)
    requires p > 0 && low < p && d == p * r + low && f < w && r == f + w * above
    ensures d / p == r && d / p % w == f && d % p == low
  {
    RemainderUnique(d, p, r, low);
    RemainderUnique(r, w, above, f);
  }

  const CODE: u64 := 0x00cf_9a00_0000_ffff
  const DATA: u64 := 0x00cf_9300_0000_ffff

  /** Memory with the two flat descriptors in the GDT; the null entry is left alone. */
  function GdtStored(mem: seq<byte>): (r: seq<byte>)
    requires |mem| >= 0x10_0000
    ensures |r| == |mem|
  {
    Stored(Stored(mem, GDT + 8, CODE), GDT + 16, DATA)
  }

  method FillSegmentDescriptor(mem: array<byte>, dt: nat, seg: Segment)
    requires seg.Valid() && dt + 8 * (seg.selector / 8) + 8 <= mem.Length
    modifies mem
    ensures mem[..] == Stored(old(mem[..]), dt + 8 * (seg.selector / 8), Descriptor(seg))
  {
    Store64(mem, dt + 8 * (seg.selector / 8), Descriptor(seg));
  }

  /** A flat 4 GiB segment of the given type. */
  function Flat(kind: nat, index: nat): Segment
    requires kind < 16 && index < 8
  {
    Segment(0, 0xffff_ffff, 8 * index, kind, 1, 0, 1, 1, 0, 1, 0)
  }

  lemma FlatDescriptors()
    ensures Descriptor(Flat(10, 1)) == CODE && Descriptor(Flat(3, 2)) == DATA
  {
    assert Flat(10, 1).Limit20() == 0xf_ffff && Flat(3, 2).Limit20() == 0xf_ffff;
  }

  /** Both start at 0 and reach 4 GiB, present and for the highest privilege: readable code, writable data. */
  lemma FlatMeans()
    ensures DescBase(CODE) == 0 && DescLimit20(CODE) == 0xf_ffff
    ensures DescAccess(CODE) == (10, 1, 0, 1) && DescFlags(CODE) == (0, 0, 1, 1)
    ensures DescBase(DATA) == 0 && DescLimit20(DATA) == 0xf_ffff
    ensures DescAccess(DATA) == (3, 1, 0, 1) && DescFlags(DATA) == (0, 0, 1, 1)
  {
    hide Descriptor, DescBase, DescLimit20, DescAccess, DescFlags;
    FlatDescriptors();
    DescriptorReadsBack(Flat(10, 1));
    DescriptorReadsBack(Flat(3, 2));
  }

  method SetupProtectedMode(mem: array<byte>)
    requires mem.Length >= 0x10_0000
    modifies mem
    ensures mem[..] == GdtStored(old(mem[..]))
  {
    hide Stored, Descriptor;
    FlatDescriptors();
    FillSegmentDescriptor(mem, GDT, Flat(10, 1));
    FillSegmentDescriptor(mem, GDT, Flat(3, 2));
  }

  // ----- the whole boot

  const BOOT_LIMIT := 0x1_0000

  datatype Booted = Booted(rip: nat, rdi: nat, cr3: nat) | GaveUp

  /** Memory when the vCPU starts: target image, descriptors, page tables, boot code. */
  ghost predicate BootMemory(mem: seq<byte>, old_: seq<byte>, target: seq<byte>, boot: seq<byte>)
    requires 0x10_0000 <= |old_| < 4 * GIB
  {
    exists tables: seq<byte> ::
      && |tables| == |old_|
      && Built(tables, GdtStored(Image(target, HeadersOf(target), |old_|, old_)), |old_|)
      && mem == Image(boot, HeadersOf(boot), BOOT_LIMIT, tables)
  }

  /** An interpreter takes the file, its tables are in it and its segments can be sought. */
  predicate Loadable(file: seq<byte>, destSize: nat) {
    Choose(file).0.Ready? && Seekable(HeadersOf(file), destSize)
  }

  /** What the System V gABI asks of a loadable file. */
  predicate WellFormedFile(file: seq<byte>) {
    Choose(file).0.Ready? && AllWellFormed(file, HeadersOf(file)) && |file| < 0x8000_0000_0000_0000
  }

  method Boot(target: seq<byte>, boot: seq<byte>, mem: array<byte>) returns (r: Booted)
    requires 8 * 0x10_0000 <= mem.Length < 4 * GIB
    requires Fits(target, HeadersOf(target), mem.Length, mem.Length)
    requires Fits(boot, HeadersOf(boot), BOOT_LIMIT, mem.Length)
    modifies mem
    ensures r.Booted? <==> Loadable(target, mem.Length) && Loadable(boot, BOOT_LIMIT)
    ensures r.Booted? ==>
      && BootMemory(mem[..], old(mem[..]), target, boot) && r.cr3 == PML4
      && Choose(target).0.Ready? && r.rdi == Choose(target).0.h.entry
      && Choose(boot).0.Ready? && r.rip == Choose(boot).0.h.entry
  {
    hide Built, Image, Open;
    var loaded := LoadSegments(target, mem, mem.Length);
    if !loaded.Entered? { return GaveUp; }
    SetupProtectedMode(mem);
    var cr3 := SetupPageTables(mem, mem.Length);
    ghost var tables := mem[..];
    var booter := LoadSegments(boot, mem, BOOT_LIMIT);
    if !booter.Entered? { return GaveUp; }
    r := Booted(booter.entry, loaded.entry, cr3);
  }

  /** Well-formed target and boot files boot. */
  method BootWellFormed(target: seq<byte>, boot: seq<byte>, mem: array<byte>) returns (r: Booted)
    requires 8 * 0x10_0000 <= mem.Length < 4 * GIB && WellFormedFile(target) && WellFormedFile(boot)
    modifies mem
    ensures r.Booted? && BootMemory(mem[..], old(mem[..]), target, boot) && r.cr3 == PML4
    ensures r.rdi == Choose(target).0.h.entry && r.rip == Choose(boot).0.h.entry
  {
    hide Choose, AllWellFormed, Fits, Seekable, BootMemory;
    WellFormedFits(target, HeadersOf(target), mem.Length, mem.Length);
    WellFormedFits(boot, HeadersOf(boot), BOOT_LIMIT, mem.Length);
    WellFormedSeekable(target, HeadersOf(target), mem.Length);
    WellFormedSeekable(boot, HeadersOf(boot), BOOT_LIMIT);
    r := Boot(target, boot, mem);
  }

  /** Loading the boot code changes nothing from its limit on. */
  lemma BootCodeStaysLow(boot: seq<byte>, mem: seq<byte>, a: nat)
    requires AllWellFormed(boot, HeadersOf(boot)) && BOOT_LIMIT <= a < |mem|
    ensures Image(boot, HeadersOf(boot), BOOT_LIMIT, mem)[a] == mem[a]
  {
    NothingBeyond(boot, HeadersOf(boot), BOOT_LIMIT, a, mem[a]);
  }

  /** Tables built over some memory are still built after the boot code was loaded under both. */
  lemma BuiltUnderBoot(tables: seq<byte>, base: seq<byte>, boot: seq<byte>)
    requires 0x10_0000 <= |tables| == |base| < 4 * GIB && AllWellFormed(boot, HeadersOf(boot))
    requires Built(tables, base, |base|)
    ensures var m := Image(boot, HeadersOf(boot), BOOT_LIMIT, tables);
      var b := Image(boot, HeadersOf(boot), BOOT_LIMIT, base);
      Built(m, b, |base|) && (UntouchedAbsent(base, |base|) ==> UntouchedAbsent(b, |base|))
  {
    var (m, b) := (Image(boot, HeadersOf(boot), BOOT_LIMIT, tables), Image(boot, HeadersOf(boot), BOOT_LIMIT, base));
    forall a: nat | BOOT_LIMIT <= a < |base| ensures m[a] == tables[a] && b[a] == base[a] {
      BootCodeStaysLow(boot, tables, a);
      BootCodeStaysLow(boot, base, a);
    }
    forall a: nat | a < BOOT_LIMIT ensures m[a] == b[a] {
      assert tables[a] == base[a];
    }
    hide Image, HeadersOf, Load64;
    SameSlots(m, tables);
    SameSlots(b, base);
    BuiltIsAboutSlots(m, b, tables, base);
  }

  lemma SameSlots(m: seq<byte>, m': seq<byte>)
    requires |m| == |m'| && forall a :: BOOT_LIMIT <= a < |m| ==> m[a] == m'[a]
    ensures forall a: nat :: BOOT_LIMIT <= a && a + 8 <= |m| ==> Load64(m, a) == Load64(m', a)
  {
    forall a: nat | BOOT_LIMIT <= a && a + 8 <= |m| ensures Load64(m, a) == Load64(m', a) {
      SameLoad(m, m', a);
    }
  }

  lemma BuiltIsAboutSlots(m: seq<byte>, b: seq<byte>, tables: seq<byte>, base: seq<byte>)
    requires 0x10_0000 <= |m| == |b| == |tables| == |base| < 4 * GIB && Built(tables, base, |base|)
    requires forall a: nat :: BOOT_LIMIT <= a && a + 8 <= |m| ==> Load64(m, a) == Load64(tables, a)
    requires forall a: nat :: BOOT_LIMIT <= a && a + 8 <= |m| ==> Load64(b, a) == Load64(base, a)
    requires forall a :: BOOT_LIMIT <= a < |m| ==> m[a] == tables[a] && b[a] == base[a]
    requires forall a :: 0 <= a < BOOT_LIMIT ==> m[a] == b[a]
    ensures Built(m, b, |base|) && (UntouchedAbsent(base, |base|) ==> UntouchedAbsent(b, |base|))
  {
    hide Load64;
    var (last, apic) := (LastGib(|base|), ApicPd(|base|));
    forall i, j | 0 <= i <= last && 0 <= j < 512
      ensures DirSlot(m, i, j) == DirectoryEntry(|base|, i, j, DirSlot(b, i, j))
    {
      assert DirSlot(tables, i, j) == DirectoryEntry(|base|, i, j, DirSlot(base, i, j));
    }
    forall i | 0 <= i <= last && i != 3 ensures Slot(m, PDPT, i) == Pd(i) + TABLE_FLAGS {
      assert Slot(tables, PDPT, i) == Pd(i) + TABLE_FLAGS;
    }
    forall i | last < i < 512 && i != 3 ensures Slot(m, PDPT, i) == Slot(b, PDPT, i) {
      assert Slot(tables, PDPT, i) == Slot(base, PDPT, i);
    }
    forall j | 1 <= j < 512 ensures Slot(m, PML4, j) == Slot(b, PML4, j) {
      assert Slot(tables, PML4, j) == Slot(base, PML4, j);
    }
    forall j | 0 <= j < 512 && j != 502 && j != 503 ensures Slot(m, apic, j) == Slot(b, apic, j) {
      assert Slot(tables, apic, j) == Slot(base, apic, j);
    }
    if UntouchedAbsent(base, |base|) {
      AbsentIsAboutSlots(b, base);
    }
  }

  lemma AbsentIsAboutSlots(b: seq<byte>, base: seq<byte>)
    requires 0x10_0000 <= |b| == |base| < 4 * GIB && UntouchedAbsent(base, |base|)
    requires forall a: nat :: PML4 <= a && a + 8 <= Pd(5) ==> Load64(b, a) == Load64(base, a)
    ensures UntouchedAbsent(b, |base|)
  {
    hide Load64;
    var apic := ApicPd(|base|);
    forall j | 1 <= j < 512 ensures !Present(Slot(b, PML4, j)) {
      assert !Present(Slot(base, PML4, j));
    }
    forall i | LastGib(|base|) < i < 512 && i != 3 ensures !Present(Slot(b, PDPT, i)) {
      assert !Present(Slot(base, PDPT, i));
    }
    forall j | 0 <= j < 512 && j != 502 && j != 503 ensures !Present(Slot(b, apic, j)) {
      assert !Present(Slot(base, apic, j));
    }
  }

  /** The target keeps out of the first MiB, as the boot code expects. */
  predicate AboveFirstMib(t: seq<Phdr>) {
    forall k :: 0 <= k < |t| && t[k].kind == PT_LOAD ==> t[k].vaddr >= 0x10_0000
  }

  lemma FirstMibKept(target: seq<byte>, mem: seq<byte>, a: nat)
    requires AllWellFormed(target, HeadersOf(target)) && AboveFirstMib(HeadersOf(target)) && a < 0x10_0000 <= |mem|
    ensures Image(target, HeadersOf(target), |mem|, mem)[a] == mem[a]
  {
    var t := HeadersOf(target);
    forall j | 0 <= j < |t| ensures !Covers(target, t[j], |mem|, a) {
      WellFormedCovers(target, t[j], |mem|, a);
    }
    UncoveredKept(target, t, |mem|, a, mem[a]);
  }

  lemma GdtOutside(mem: seq<byte>, a: nat)
    requires 0x10_0000 <= |mem| && a < |mem| && !(GDT + 8 <= a < GDT + 24)
    ensures GdtStored(mem)[a] == mem[a]
  {
    StoredLoad(mem, GDT + 8, CODE);
    StoredLoad(Stored(mem, GDT + 8, CODE), GDT + 16, DATA);
  }

  lemma GdtInside(mem: seq<byte>)
    requires 0x10_0000 <= |mem|
    ensures Slot(GdtStored(mem), GDT, 1) == CODE && Slot(GdtStored(mem), GDT, 2) == DATA
  {
    hide Stored, Load64;
    StoredLoad(mem, GDT + 8, CODE);
    StoredLoad(Stored(mem, GDT + 8, CODE), GDT + 16, DATA);
  }

  /** What survives to the first instruction: the target above 1 MiB, the descriptors and the mapping. */
  lemma BootedMachine(mem: seq<byte>, old_: seq<byte>, target: seq<byte>, boot: seq<byte>, a: nat, va: nat)
    requires 0x10_0000 <= |old_| < 4 * GIB && BootMemory(mem, old_, target, boot)
    requires AllWellFormed(boot, HeadersOf(boot))
    requires 0x10_0000 <= a < |old_| && va < 0x1_0000_0000_0000
    ensures |mem| == |old_| && mem[a] == Image(target, HeadersOf(target), |old_|, old_)[a]
    ensures Slot(mem, 0x1_0000, 1) == CODE && Slot(mem, 0x1_0000, 2) == DATA
    ensures Expected(|mem|, va).Some? ==> Walk(mem, PML4, va) == Some(va)
    ensures AllWellFormed(target, HeadersOf(target)) && AboveFirstMib(HeadersOf(target))
            && UntouchedAbsent(old_, |old_|) ==>
              Walk(mem, PML4, va) == Expected(|mem|, va)
  {
    hide Image, HeadersOf, Load64, Built, UntouchedAbsent, Walk, GdtStored, AllWellFormed, AboveFirstMib;
    var image := Image(target, HeadersOf(target), |old_|, old_);
    var base := GdtStored(image);
    var tables: seq<byte> :| |tables| == |old_| && Built(tables, base, |old_|)
      && mem == Image(boot, HeadersOf(boot), BOOT_LIMIT, tables);
    BuiltUnderBoot(tables, base, boot);
    WalkBuilt(mem, Image(boot, HeadersOf(boot), BOOT_LIMIT, base), |old_|, va);
    LowBytesOfTables(tables, base);
    GdtOutside(image, a);
    BootCodeStaysLow(boot, tables, a);
    GdtInside(image);
    forall b: nat | BOOT_LIMIT <= b < PML4 ensures mem[b] == base[b] {
      BootCodeStaysLow(boot, tables, b);
    }
    SameLoad(mem, base, GDT + 8);
    SameLoad(mem, base, GDT + 16);
    if AllWellFormed(target, HeadersOf(target)) && AboveFirstMib(HeadersOf(target)) && UntouchedAbsent(old_, |old_|) {
      forall b: nat | PML4 <= b && b + 8 <= Pd(5) ensures Load64(base, b) == Load64(old_, b) {
        forall c: nat | b <= c < b + 8 ensures base[c] == old_[c] {
          GdtOutside(image, c);
          FirstMibKept(target, old_, c);
        }
        SameLoad(base, old_, b);
      }
      AbsentIsAboutSlots(base, old_);
    }
  }

  lemma LowBytesOfTables(tables: seq<byte>, base: seq<byte>)
    requires 0x10_0000 <= |tables| == |base| < 4 * GIB && Built(tables, base, |base|)
    ensures forall a :: 0 <= a < PML4 || Pd(5) <= a < |base| ==> tables[a] == base[a]
  {
  }
}
