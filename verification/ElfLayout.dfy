/** The fields of an executable lie where the System V gABI puts them (elf/elf64.h, elf/elf32.h). */
module ElfLayout {
  import opened Machine
  import opened ElfLoader

  /** A program header with all its fields. */
  datatype ProgramHeader = ProgramHeader(
    kind: nat, flags: nat, offset: nat, vaddr: nat, paddr: nat, filesz: nat, memsz: nat, align: nat)

  /** A file header with all its fields. */
  datatype FileHeader = FileHeader(
    ident: seq<byte>, kind: nat, machine: nat, version: nat, entry: nat, phoff: nat, shoff: nat, flags: nat,
    ehsize: nat, phentsize: nat, phnum: nat, shentsize: nat, shnum: nat, shstrndx: nat)

  /** The two classes: the width of an address, and the sizes of the two headers. */
  function Width(wide: bool): nat { if wide then 8 else 4 }
  function HeaderSize(wide: bool): nat { if wide then 64 else 52 }
  function EntrySize(wide: bool): nat { if wide then 56 else 32 }
  function Class(wide: bool): Format { if wide then ELF64 else ELF32 }

  predicate Holds(p: ProgramHeader, wide: bool) {
    var w := Pow256(Width(wide));
    && p.kind < Pow256(4) && p.flags < Pow256(4) && p.offset < w && p.vaddr < w && p.paddr < w
    && p.filesz < w && p.memsz < w && p.align < w
  }

  predicate HeaderHolds(h: FileHeader, wide: bool) {
    var w := Pow256(Width(wide));
    && |h.ident| == 16 && h.kind < Pow256(2) && h.machine < Pow256(2) && h.version < Pow256(4)
    && h.entry < w && h.phoff < w && h.shoff < w && h.flags < Pow256(4) && h.ehsize < Pow256(2)
    && h.phentsize < Pow256(2) && h.phnum < Pow256(2) && h.shentsize < Pow256(2) && h.shnum < Pow256(2)
    && h.shstrndx < Pow256(2)
  }

  /** Elf64_Phdr, and Elf32_Phdr with its flags further back. */
  function Render(p: ProgramHeader, wide: bool): (b: seq<byte>)
    ensures |b| == EntrySize(wide)
  {
    if wide then
      ToBytes(p.kind, 4) + (ToBytes(p.flags, 4) + (ToBytes(p.offset, 8) + (ToBytes(p.vaddr, 8)
      + (ToBytes(p.paddr, 8) + (ToBytes(p.filesz, 8) + (ToBytes(p.memsz, 8) + ToBytes(p.align, 8)))))))
    else
      ToBytes(p.kind, 4) + (ToBytes(p.offset, 4) + (ToBytes(p.vaddr, 4) + (ToBytes(p.paddr, 4)
      + (ToBytes(p.filesz, 4) + (ToBytes(p.memsz, 4) + (ToBytes(p.flags, 4) + ToBytes(p.align, 4)))))))
  }

  /** Elf64_Ehdr and Elf32_Ehdr. */
  function RenderHeader(h: FileHeader, wide: bool): (b: seq<byte>)
    requires |h.ident| == 16
    ensures |b| == HeaderSize(wide)
  {
    h.ident + (ToBytes(h.kind, 2) + (ToBytes(h.machine, 2) + (ToBytes(h.version, 4)
    + (ToBytes(h.entry, Width(wide)) + (ToBytes(h.phoff, Width(wide)) + (ToBytes(h.shoff, Width(wide))
    + (ToBytes(h.flags, 4) + (ToBytes(h.ehsize, 2) + RenderCounts(h)))))))))
  }

  function RenderCounts(h: FileHeader): (b: seq<byte>)
    ensures |b| == 10
  {
    ToBytes(h.phentsize, 2) + (ToBytes(h.phnum, 2) + (ToBytes(h.shentsize, 2)
    + (ToBytes(h.shnum, 2) + ToBytes(h.shstrndx, 2))))
  }

  /** At a place of the file lies a part, and behind it the rest. */
  predicate At(file: seq<byte>, at: nat, part: seq<byte>) {
    at + |part| <= |file| && file[at..at + |part|] == part
  }

  lemma Peel(file: seq<byte>, at: nat, part: seq<byte>, rest: seq<byte>)
    requires At(file, at, part + rest)
    ensures At(file, at, part) && At(file, at + |part|, rest)
  {
    var (n, both) := (|part| + |rest|, part + rest);
    SliceOfSlice(file, at, n, 0, |part|);
    SliceOfSlice(file, at, n, |part|, n);
    assert both[0..|part|] == part && both[|part|..n] == rest;
  }

  lemma PeelField(file: seq<byte>, at: nat, v: nat, n: nat, rest: seq<byte>)
    requires At(file, at, ToBytes(v, n) + rest) && v < Pow256(n)
    ensures at + n + |rest| <= |file| && Field(file, at, n) == v && At(file, at + n, rest)
  {
    Peel(file, at, ToBytes(v, n), rest);
    LastField(file, at, v, n);
  }

  lemma LastField(file: seq<byte>, at: nat, v: nat, n: nat)
    requires At(file, at, ToBytes(v, n)) && v < Pow256(n)
    ensures at + n <= |file| && Field(file, at, n) == v
  {
    FromToBytes(v, n);
    RemainderUnique(v, Pow256(n), 0, v);
  }

  /** What the loader takes from a program header. */
  function Taken(p: ProgramHeader): Phdr { Phdr(p.kind, p.offset, p.vaddr, p.filesz, p.memsz) }

  lemma EntryRead(file: seq<byte>, at: nat, p: ProgramHeader, wide: bool)
    requires At(file, at, Render(p, wide)) && Holds(p, wide)
    ensures at + EntrySize(wide) <= |file| && EntryAt(Class(wide), file, at) == Taken(p)
  {
    hide Field, ToBytes, Pow256, At;
    if wide {
      var r6 := ToBytes(p.memsz, 8) + ToBytes(p.align, 8);
      var r5 := ToBytes(p.filesz, 8) + r6;
      var r4 := ToBytes(p.paddr, 8) + r5;
      var r3 := ToBytes(p.vaddr, 8) + r4;
      var r2 := ToBytes(p.offset, 8) + r3;
      var r1 := ToBytes(p.flags, 4) + r2;
      PeelField(file, at, p.kind, 4, r1);
      PeelField(file, at + 4, p.flags, 4, r2);
      PeelField(file, at + 8, p.offset, 8, r3);
      PeelField(file, at + 16, p.vaddr, 8, r4);
      PeelField(file, at + 24, p.paddr, 8, r5);
      PeelField(file, at + 32, p.filesz, 8, r6);
      PeelField(file, at + 40, p.memsz, 8, ToBytes(p.align, 8));
    } else {
      var r6 := ToBytes(p.flags, 4) + ToBytes(p.align, 4);
      var r5 := ToBytes(p.memsz, 4) + r6;
      var r4 := ToBytes(p.filesz, 4) + r5;
      var r3 := ToBytes(p.paddr, 4) + r4;
      var r2 := ToBytes(p.vaddr, 4) + r3;
      var r1 := ToBytes(p.offset, 4) + r2;
      PeelField(file, at, p.kind, 4, r1);
      PeelField(file, at + 4, p.offset, 4, r2);
      PeelField(file, at + 8, p.vaddr, 4, r3);
      PeelField(file, at + 12, p.paddr, 4, r4);
      PeelField(file, at + 16, p.filesz, 4, r5);
      PeelField(file, at + 20, p.memsz, 4, r6);
    }
  }

  /** The identification of an executable for the processor of its class. */
  predicate Identified(h: FileHeader, wide: bool)
    requires |h.ident| == 16
  {
    && h.ident[0] == 0x7f && h.ident[1] == 0x45 && h.ident[2] == 0x4c
    && h.ident[4] == (if wide then 2 else 1) && h.ident[5] == 1
    && h.kind == 2 && h.machine == (if wide then 62 else 3)
  }

  lemma CountsRead(file: seq<byte>, at: nat, h: FileHeader, wide: bool)
    requires At(file, at, RenderCounts(h)) && HeaderHolds(h, wide)
    ensures at + 10 <= |file|
    ensures Field(file, at, 2) == h.phentsize && Field(file, at + 2, 2) == h.phnum
    ensures Field(file, at + 4, 2) == h.shentsize && Field(file, at + 6, 2) == h.shnum
  {
    hide Field, ToBytes, Pow256, At;
    var r3 := ToBytes(h.shnum, 2) + ToBytes(h.shstrndx, 2);
    var r2 := ToBytes(h.shentsize, 2) + r3;
    var r1 := ToBytes(h.phnum, 2) + r2;
    PeelField(file, at, h.phentsize, 2, r1);
    PeelField(file, at + 2, h.phnum, 2, r2);
    PeelField(file, at + 4, h.shentsize, 2, r3);
    PeelField(file, at + 6, h.shnum, 2, ToBytes(h.shstrndx, 2));
  }

  /** A rendered file header is recognised exactly when it is identified, and read field by field. */
  lemma HeaderRead(file: seq<byte>, h: FileHeader, wide: bool)
    requires HeaderHolds(h, wide) && At(file, 0, RenderHeader(h, wide))
    ensures HeaderSize(wide) <= |file|
    ensures Recognised(Class(wide), file) <==> Identified(h, wide)
    ensures ReadHeader(Class(wide), file) ==
            Header(h.entry, h.phoff, h.shoff, h.phentsize, h.phnum, h.shentsize, h.shnum)
  {
    hide Field, ToBytes, Pow256;
    var w := Width(wide);
    var r8 := ToBytes(h.ehsize, 2) + RenderCounts(h);
    var r7 := ToBytes(h.flags, 4) + r8;
    var r6 := ToBytes(h.shoff, w) + r7;
    var r5 := ToBytes(h.phoff, w) + r6;
    var r4 := ToBytes(h.entry, w) + r5;
    var r3 := ToBytes(h.version, 4) + r4;
    var r2 := ToBytes(h.machine, 2) + r3;
    var r1 := ToBytes(h.kind, 2) + r2;
    assert RenderHeader(h, wide) == h.ident + r1;
    Peel(file, 0, h.ident, r1);
    assert forall i :: 0 <= i < 16 ==> file[i] == file[0..16][i] == h.ident[i];
    hide At;
    PeelField(file, 16, h.kind, 2, r2);
    PeelField(file, 18, h.machine, 2, r3);
    PeelField(file, 20, h.version, 4, r4);
    PeelField(file, 24, h.entry, w, r5);
    PeelField(file, 24 + w, h.phoff, w, r6);
    PeelField(file, 24 + 2 * w, h.shoff, w, r7);
    PeelField(file, 24 + 3 * w, h.flags, 4, r8);
    PeelField(file, 28 + 3 * w, h.ehsize, 2, RenderCounts(h));
    CountsRead(file, 30 + 3 * w, h, wide);
  }

  // ----- a whole executable

  function RenderAll(ps: seq<ProgramHeader>, wide: bool): (b: seq<byte>)
    ensures |b| == EntrySize(wide) * |ps|
  {
    if ps == [] then [] else Render(ps[0], wide) + RenderAll(ps[1..], wide)
  }

  lemma {:induction false} RecordAt(file: seq<byte>, at: nat, ps: seq<ProgramHeader>, wide: bool, k: nat)
    requires At(file, at, RenderAll(ps, wide)) && k < |ps|
    ensures At(file, at + EntrySize(wide) * k, Render(ps[k], wide))
    decreases k
  {
    hide Render, At;
    Peel(file, at, Render(ps[0], wide), RenderAll(ps[1..], wide));
    if k > 0 { RecordAt(file, at + EntrySize(wide), ps[1..], wide, k - 1); }
  }

  /** The program headers directly follow the file header; anything may follow them. */
  predicate Executable(file: seq<byte>, h: FileHeader, ps: seq<ProgramHeader>, wide: bool) {
    && HeaderHolds(h, wide) && Identified(h, wide)
    && (forall k :: 0 <= k < |ps| ==> Holds(ps[k], wide))
    && At(file, 0, RenderHeader(h, wide)) && At(file, HeaderSize(wide), RenderAll(ps, wide))
    && h.phoff == HeaderSize(wide) && h.phentsize == EntrySize(wide) && h.phnum == |ps|
    && TableReadable(file, h.shoff, h.shentsize, h.shnum)
  }

  /** An executable laid out so is taken by its own interpreter, with its entry point and its program headers. */
  lemma ExecutableTaken(file: seq<byte>, h: FileHeader, ps: seq<ProgramHeader>, wide: bool)
    requires Executable(file, h, ps, wide)
    ensures Choose(file).0.Ready? && Choose(file).1 == Class(wide) && Choose(file).0.h.entry == h.entry
    ensures HeadersOf(file) == seq(|ps|, k requires 0 <= k < |ps| => Taken(ps[k]))
  {
    hide Open, Recognised, ReadHeader, RenderHeader, Render, RenderAll;
    var header := OpenReady(file, h, ps, wide);
    OneInterpreter(file);
    forall k | 0 <= k < |ps| ensures Table(Class(wide), file, header)[k] == Taken(ps[k]) {
      RecordAt(file, HeaderSize(wide), ps, wide, k);
      EntryRead(file, HeaderSize(wide) + EntrySize(wide) * k, ps[k], wide);
    }
  }

  lemma OpenReady(file: seq<byte>, h: FileHeader, ps: seq<ProgramHeader>, wide: bool) returns (header: Header)
    requires Executable(file, h, ps, wide)
    ensures header.entry == h.entry && header.phoff == HeaderSize(wide)
    ensures header.phentsize == EntrySize(wide) && header.phnum == |ps|
    ensures Open(Class(wide), file) == Ready(header)
  {
    hide RenderHeader, RenderAll, Identified, Recognised, ReadHeader;
    HeaderRead(file, h, wide);
    header := Header(h.entry, h.phoff, h.shoff, h.phentsize, h.phnum, h.shentsize, h.shnum);
  }

  /** Nothing is taken whose section header table does not lie in the file. */
  lemma SectionsInFile(file: seq<byte>, k: nat)
    requires Choose(file).0.Ready? && k < Choose(file).0.h.shnum
    ensures var h := Choose(file).0.h; 0 < h.shentsize && h.shoff + h.shentsize * k + h.shentsize <= |file|
  {
    hide Recognised, ReadHeader;
    var h := Choose(file).0.h;
    EntryInTable(h.shentsize, h.shnum, k);
  }
}
