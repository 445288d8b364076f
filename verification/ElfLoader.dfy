/** Loading the PT_LOAD segments of an ELF file into guest memory (elf/estrattore.cpp, elf64.cpp, elf32.cpp). */
module ElfLoader {
  import opened Machine

  const PT_LOAD := 1
  const ET_EXEC := 2

  /** Where the 32-bit and the 64-bit class keep the fields the loader reads. */
  datatype Format = Format(
    classByte: byte, machine: word, headerSize: nat, width: nat,
    phoffAt: nat, shoffAt: nat, sizesAt: nat,
    phdrSize: nat, offsetAt: nat, vaddrAt: nat, fileszAt: nat, memszAt: nat)

  const ELF64 := Format(2, 62, 64, 8, 32, 40, 54, 56, 8, 16, 32, 40)
  const ELF32 := Format(1, 3, 52, 4, 28, 32, 42, 32, 4, 8, 16, 20)

  predicate Known(f: Format) { f == ELF64 || f == ELF32 }

  function Field(file: seq<byte>, at: nat, n: nat): nat
    requires at + n <= |file|
  {
    FromBytes(file[at..at + n])
  }

  datatype Phdr = Phdr(kind: nat, offset: nat, vaddr: nat, filesz: nat, memsz: nat)

  /** The header of an executable the loader recognises. */
  datatype Header = Header(entry: nat, phoff: nat, shoff: nat, phentsize: nat, phnum: nat, shentsize: nat, shnum: nat)

  /** The identification test of init; the fourth magic byte is never looked at. */
  predicate Recognised(f: Format, file: seq<byte>)
    requires Known(f)
  {
    && f.headerSize <= |file|
    && file[0] == 0x7f && file[1] == 'E' as int && file[2] == 'L' as int
    && file[4] == f.classByte && file[5] == 1
    && Field(file, 16, 2) == ET_EXEC && Field(file, 18, 2) == f.machine
  }

  function ReadHeader(f: Format, file: seq<byte>): Header
    requires Known(f) && f.headerSize <= |file|
  {
    Header(Field(file, 24, f.width), Field(file, f.phoffAt, f.width), Field(file, f.shoffAt, f.width),
           Field(file, f.sizesAt, 2), Field(file, f.sizesAt + 2, 2),
           Field(file, f.sizesAt + 4, 2), Field(file, f.sizesAt + 6, 2))
  }

  /** fseek to off and fread of n whole entries both succeed. */
  predicate TableReadable(file: seq<byte>, off: nat, size: nat, n: nat) {
    off < 0x8000_0000_0000_0000 && (n == 0 || (size > 0 && off + size * n <= |file|))
  }

  /** What init decides: NotMine lets the next interpreter try, Truncated ends the program,
      ShortEntries is a table whose entries are smaller than a program header. */
  datatype Opened = NotMine | Truncated | ShortEntries | Ready(h: Header)

  function Open(f: Format, file: seq<byte>): Opened
    requires Known(f)
  {
    if !Recognised(f, file) then NotMine
    else
      var h := ReadHeader(f, file);
      if !TableReadable(file, h.phoff, h.phentsize, h.phnum) then Truncated
      else if !TableReadable(file, h.shoff, h.shentsize, h.shnum) then Truncated
      else if h.phnum > 0 && h.phentsize < f.phdrSize then ShortEntries
      else Ready(h)
  }

  lemma EntryInTable(size: nat, n: nat, k: nat)
    requires k < n
    ensures 0 <= size * k && size * k + size <= size * n
  {
    assert size * n == size * k + size + size * (n - k - 1);
  }

  lemma EntryInFile(f: Format, file: seq<byte>, h: Header, k: nat)
    requires Known(f) && Open(f, file) == Ready(h) && k < h.phnum
    ensures 0 <= h.phentsize * k && h.phoff + h.phentsize * k + f.phdrSize <= |file|
  {
    hide Recognised, ReadHeader;
    EntryInTable(h.phentsize, h.phnum, k);
  }

  function EntryAt(f: Format, file: seq<byte>, at: nat): Phdr
    requires Known(f) && at + f.phdrSize <= |file|
  {
    Phdr(Field(file, at, 4), Field(file, at + f.offsetAt, f.width), Field(file, at + f.vaddrAt, f.width),
         Field(file, at + f.fileszAt, f.width), Field(file, at + f.memszAt, f.width))
  }

  function Entry(f: Format, file: seq<byte>, h: Header, k: nat): Phdr
    requires Known(f) && Open(f, file) == Ready(h) && k < h.phnum
  {
    EntryInFile(f, file, h, k);
    EntryAt(f, file, h.phoff + h.phentsize * k)
  }

  function Table(f: Format, file: seq<byte>, h: Header): (t: seq<Phdr>)
    requires Known(f) && Open(f, file) == Ready(h)
    ensures |t| == h.phnum
  {
    seq(h.phnum, k requires 0 <= k < h.phnum => Entry(f, file, h, k))
  }

  /** The loader's size test, with the source's 64-bit sum. */
  predicate Accepted(p: Phdr, destSize: nat) {
    p.kind == PT_LOAD && (p.vaddr + p.memsz) % 0x1_0000_0000_0000_0000 <= destSize
  }

  /** How many bytes fread delivers. */
  function Available(file: seq<byte>, p: Phdr): nat {
    if |file| < p.offset then 0 else if p.filesz <= |file| - p.offset then p.filesz else |file| - p.offset
  }

  /** How far past its address a segment writes. */
  function Extent(file: seq<byte>, p: Phdr): nat {
    if p.memsz > p.filesz then p.memsz else Available(file, p)
  }

  /** A sum past 2^64 wraps, and passes the test if what is left is small. */
  lemma WrapIsAccepted(p: Phdr, destSize: nat)
    requires p.kind == PT_LOAD && p.vaddr < 0x1_0000_0000_0000_0000 && p.memsz < 0x1_0000_0000_0000_0000
    ensures p.vaddr + p.memsz >= 0x1_0000_0000_0000_0000 ==>
              (Accepted(p, destSize) <==> p.vaddr - destSize <= 0x1_0000_0000_0000_0000 - p.memsz)
  {
  }

  /** What a segment leaves at address a, if it writes there. */
  function SegmentByte(file: seq<byte>, p: Phdr, a: nat): Option<byte> {
    if p.vaddr <= a < p.vaddr + Available(file, p) then Some(file[p.offset + (a - p.vaddr)])
    else if p.vaddr + p.filesz <= a < p.vaddr + p.memsz then Some(0)
    else None
  }

  /** The byte at a after the table's segments were loaded in order over a byte that was old_. */
  function ImageByte(file: seq<byte>, t: seq<Phdr>, destSize: nat, a: nat, old_: byte): byte {
    if t == [] then old_
    else
      var p := t[|t| - 1];
      if Accepted(p, destSize) && SegmentByte(file, p, a).Some? then SegmentByte(file, p, a).value
      else ImageByte(file, t[..|t| - 1], destSize, a, old_)
  }

  function Image(file: seq<byte>, t: seq<Phdr>, destSize: nat, mem: seq<byte>): (r: seq<byte>)
    ensures |r| == |mem|
  {
    seq(|mem|, a requires 0 <= a < |mem| => ImageByte(file, t, destSize, a, mem[a]))
  }

  /** Memory after one segment. */
  function SegmentStored(file: seq<byte>, p: Phdr, mem: seq<byte>): (r: seq<byte>)
    ensures |r| == |mem|
  {
    seq(|mem|, a requires 0 <= a < |mem| =>
      if SegmentByte(file, p, a).Some? then SegmentByte(file, p, a).value else mem[a])
  }

  predicate Covers(file: seq<byte>, p: Phdr, destSize: nat, a: nat) {
    Accepted(p, destSize) && SegmentByte(file, p, a).Some?
  }

  predicate IsLastCovering(file: seq<byte>, t: seq<Phdr>, destSize: nat, a: nat, k: nat)
    requires k < |t|
  {
    Covers(file, t[k], destSize, a) && forall j :: k < j < |t| ==> !Covers(file, t[j], destSize, a)
  }

  /** The last covering segment in table order decides a byte. */
  lemma {:induction false} LastCoveringDecides(file: seq<byte>, t: seq<Phdr>, destSize: nat, a: nat, old_: byte, k: nat)
    requires k < |t| && IsLastCovering(file, t, destSize, a, k)
    ensures ImageByte(file, t, destSize, a, old_) == SegmentByte(file, t[k], a).value
  {
    var init := t[..|t| - 1];
    if k < |init| {
      assert !Covers(file, t[|t| - 1], destSize, a);
      LastCoveringDecides(file, init, destSize, a, old_, k);
    }
  }

  /** A byte no segment covers keeps its value. */
  lemma {:induction false} UncoveredKept(file: seq<byte>, t: seq<Phdr>, destSize: nat, a: nat, old_: byte)
    requires forall j :: 0 <= j < |t| ==> !Covers(file, t[j], destSize, a)
    ensures ImageByte(file, t, destSize, a, old_) == old_
  {
    if t != [] {
      assert !Covers(file, t[|t| - 1], destSize, a);
      UncoveredKept(file, t[..|t| - 1], destSize, a, old_);
    }
  }

  /** What the System V gABI asks of a loadable segment. */
  predicate WellFormed(file: seq<byte>, p: Phdr) {
    p.filesz <= p.memsz && p.vaddr + p.memsz < 0x1_0000_0000_0000_0000 && p.offset + p.filesz <= |file|
  }

  predicate AllWellFormed(file: seq<byte>, t: seq<Phdr>) {
    forall k :: 0 <= k < |t| && t[k].kind == PT_LOAD ==> WellFormed(file, t[k])
  }

  /** A well-formed segment covers exactly its memory range, and only inside the limit. */
  lemma WellFormedCovers(file: seq<byte>, p: Phdr, destSize: nat, a: nat)
    requires p.kind == PT_LOAD ==> WellFormed(file, p)
    ensures Covers(file, p, destSize, a) <==>
      p.kind == PT_LOAD && p.vaddr + p.memsz <= destSize && p.vaddr <= a < p.vaddr + p.memsz
    ensures Covers(file, p, destSize, a) ==> a < destSize
    ensures Covers(file, p, destSize, a) ==>
              SegmentByte(file, p, a).value == if a < p.vaddr + p.filesz then file[p.offset + (a - p.vaddr)] else 0
  {
  }

  /** A covered byte does not depend on what was there. */
  lemma {:induction false} CoveredForgets(file: seq<byte>, t: seq<Phdr>, destSize: nat, a: nat, k: nat)
    requires k < |t| && Covers(file, t[k], destSize, a)
    ensures forall x, y :: ImageByte(file, t, destSize, a, x) == ImageByte(file, t, destSize, a, y)
  {
    var init := t[..|t| - 1];
    if k < |init| { CoveredForgets(file, init, destSize, a, k); }
  }

  /** What a segment really writes ends at or below the limit. */
  predicate EndsInside(file: seq<byte>, p: Phdr, destSize: nat) {
    && (Available(file, p) > 0 ==> p.vaddr + Available(file, p) <= destSize)
    && (p.memsz > p.filesz ==> p.vaddr + p.memsz <= destSize)
  }

  predicate Kept(file: seq<byte>, t: seq<Phdr>, destSize: nat, a: nat) {
    forall old_: byte :: ImageByte(file, t, destSize, a, old_) == old_
  }

  /** Whatever the headers say, nothing at or beyond the limit changes exactly when every accepted one ends inside. */
  lemma LimitIsKept(file: seq<byte>, t: seq<Phdr>, destSize: nat)
    ensures (forall a: nat :: a >= destSize ==> Kept(file, t, destSize, a)) <==>
            (forall k :: 0 <= k < |t| && Accepted(t[k], destSize) ==> EndsInside(file, t[k], destSize))
  {
    if forall k :: 0 <= k < |t| && Accepted(t[k], destSize) ==> EndsInside(file, t[k], destSize) {
      forall a: nat | a >= destSize ensures Kept(file, t, destSize, a) {
        assert forall j :: 0 <= j < |t| ==> !Covers(file, t[j], destSize, a);
        forall old_: byte ensures ImageByte(file, t, destSize, a, old_) == old_ {
          UncoveredKept(file, t, destSize, a, old_);
        }
      }
    } else {
      var k :| 0 <= k < |t| && Accepted(t[k], destSize) && !EndsInside(file, t[k], destSize);
      var (p, n) := (t[k], Available(file, t[k]));
      var a := p.vaddr + (if n > 0 && p.vaddr + n > destSize then n else p.memsz) - 1;
      assert a >= destSize && Covers(file, p, destSize, a);
      CoveredForgets(file, t, destSize, a, k);
      assert ImageByte(file, t, destSize, a, 0) == ImageByte(file, t, destSize, a, 1);
      assert !Kept(file, t, destSize, a);
    }
  }

  /** For well-formed segments nothing at or beyond the limit is written. */
  lemma NothingBeyond(file: seq<byte>, t: seq<Phdr>, destSize: nat, a: nat, old_: byte)
    requires AllWellFormed(file, t) && a >= destSize
    ensures ImageByte(file, t, destSize, a, old_) == old_
  {
    forall j | 0 <= j < |t| ensures !Covers(file, t[j], destSize, a) {
      WellFormedCovers(file, t[j], destSize, a);
    }
    UncoveredKept(file, t, destSize, a, old_);
  }

  /**
   * What a load means for a well-formed file: each byte is the file byte or the zero fill of the last
   * loadable segment in table order that fits below the limit and covers it.
   */
  lemma LoadMeaning(file: seq<byte>, t: seq<Phdr>, destSize: nat, a: nat, old_: byte, k: nat)
    requires AllWellFormed(file, t) && k < |t|
    requires t[k].kind == PT_LOAD && t[k].vaddr <= a < t[k].vaddr + t[k].memsz <= destSize
    requires forall j :: k < j < |t| && t[j].kind == PT_LOAD && t[j].vaddr + t[j].memsz <= destSize ==>
               !(t[j].vaddr <= a < t[j].vaddr + t[j].memsz)
    ensures ImageByte(file, t, destSize, a, old_) ==
            if a < t[k].vaddr + t[k].filesz then file[t[k].offset + (a - t[k].vaddr)] else 0
  {
    forall j | k <= j < |t| ensures Covers(file, t[j], destSize, a) <==> j == k {
      WellFormedCovers(file, t[j], destSize, a);
    }
    LastCoveringDecides(file, t, destSize, a, old_, k);
  }

  /** Every accepted segment writes inside memory; off this condition the source writes past it. */
  predicate Fits(file: seq<byte>, t: seq<Phdr>, destSize: nat, memSize: nat) {
    forall k :: 0 <= k < |t| && Accepted(t[k], destSize) ==> InMemory(file, t[k], memSize)
  }

  predicate InMemory(file: seq<byte>, p: Phdr, memSize: nat) {
    Extent(file, p) > 0 ==> p.vaddr + Extent(file, p) <= memSize
  }

  /** That is exactly that no byte it writes lies outside. */
  lemma FitsIsExact(file: seq<byte>, t: seq<Phdr>, destSize: nat, memSize: nat)
    ensures Fits(file, t, destSize, memSize) <==>
            forall k: nat, a: nat :: k < |t| && Covers(file, t[k], destSize, a) ==> a < memSize
  {
    if !Fits(file, t, destSize, memSize) {
      var k: nat :| k < |t| && Accepted(t[k], destSize) && !InMemory(file, t[k], memSize);
      assert Covers(file, t[k], destSize, t[k].vaddr + Extent(file, t[k]) - 1);
    }
  }

  lemma WellFormedFits(file: seq<byte>, t: seq<Phdr>, destSize: nat, memSize: nat)
    requires AllWellFormed(file, t) && destSize <= memSize
    ensures Fits(file, t, destSize, memSize)
  {
  }

  /** An opened executable and its cursor over the program headers. */
  class Executable {
    const format: Format
    const file: seq<byte>
    const header: Header
    var currSeg: nat

    ghost predicate Valid()
      reads this
    {
      Known(format) && Open(format, file) == Ready(header) && currSeg <= header.phnum
    }

    ghost function Headers(): seq<Phdr>
      requires Known(format) && Open(format, file) == Ready(header)
    {
      Table(format, file, header)
    }

    constructor (format: Format, file: seq<byte>, header: Header)
      requires Known(format) && Open(format, file) == Ready(header)
      ensures Valid() && currSeg == 0
      ensures this.format == format && this.file == file && this.header == header
    {
      this.format, this.file, this.header := format, file, header;
      currSeg := 0;
    }

    /** Advances past other headers to the next loadable one. */
    method NextSegment() returns (p: Option<Phdr>)
      requires Valid()
      modifies this
      ensures Valid() && old(currSeg) <= currSeg
      ensures forall k :: old(currSeg) <= k < (if p.Some? then currSeg - 1 else currSeg) ==>
                Headers()[k].kind != PT_LOAD
      ensures p.Some? ==> old(currSeg) < currSeg && p.value == Headers()[currSeg - 1] && p.value.kind == PT_LOAD
      ensures p.None? ==> currSeg == header.phnum
    {
      hide Open, EntryAt, Known;
      while currSeg < header.phnum
        invariant Valid() && old(currSeg) <= currSeg
        invariant forall k :: old(currSeg) <= k < currSeg ==> Headers()[k].kind != PT_LOAD
        decreases header.phnum - currSeg
      {
        var ph := Entry(format, file, header, currSeg);
        currSeg := currSeg + 1;
        if ph.kind == PT_LOAD { return Some(ph); }
      }
      p := None;
    }

    /** Copies a segment's file bytes and zeroes the rest of its memory range. */
    method CopySegment(p: Phdr, mem: array<byte>)
      requires InMemory(file, p, mem.Length)
      modifies mem
      ensures mem[..] == SegmentStored(file, p, old(mem[..]))
    {
      var n := Available(file, p);
      forall i | 0 <= i < n { mem[p.vaddr + i] := file[p.offset + i]; }
      if p.memsz > p.filesz {
        forall i | p.filesz <= i < p.memsz { mem[p.vaddr + i] := 0; }
      }
    }
  }

  /** How a load ends: the entry point, or one of the ways the program gives up. */
  datatype Loaded = Entered(entry: nat, headers: seq<Phdr>) | Unrecognised | FileEnded | BadTable | BadSeek

  /** fseek refuses offsets a long cannot hold. */
  predicate Seekable(t: seq<Phdr>, destSize: nat) {
    forall k :: 0 <= k < |t| && Accepted(t[k], destSize) ==> t[k].offset < 0x8000_0000_0000_0000
  }

  lemma WellFormedSeekable(file: seq<byte>, t: seq<Phdr>, destSize: nat)
    requires AllWellFormed(file, t) && |file| < 0x8000_0000_0000_0000
    ensures Seekable(t, destSize)
  {
  }

  /** One accepted segment whose offset a long cannot hold stops the load. */
  lemma UnseekableStops(t: seq<Phdr>, destSize: nat, k: nat)
    requires k < |t| && Accepted(t[k], destSize) && t[k].offset >= 0x8000_0000_0000_0000
    ensures !Seekable(t, destSize)
  {
  }

  /** The interpreters in the order the loader asks them. */
  function Choose(file: seq<byte>): (r: (Opened, Format))
    ensures Known(r.1) && r.0 == Open(r.1, file)
  {
    if Open(ELF64, file) != NotMine then (Open(ELF64, file), ELF64) else (Open(ELF32, file), ELF32)
  }

  /** A file belongs to one interpreter at most, so their order does not matter. */
  lemma OneInterpreter(file: seq<byte>)
    ensures Open(ELF64, file) == NotMine || Open(ELF32, file) == NotMine
    ensures Open(ELF32, file) != NotMine ==> Choose(file) == (Open(ELF32, file), ELF32)
  {
  }

  /** The program headers a load will go through, in table order. */
  function HeadersOf(file: seq<byte>): seq<Phdr>
  {
    var (o, f) := Choose(file);
    if o.Ready? then Table(f, file, o.h) else []
  }

  method LoadSegments(file: seq<byte>, mem: array<byte>, destSize: nat) returns (r: Loaded)
    requires Fits(file, HeadersOf(file), destSize, mem.Length)
    modifies mem
    ensures r.Entered? <==> Choose(file).0.Ready? && Seekable(HeadersOf(file), destSize)
    ensures r.Entered? ==> r.headers == HeadersOf(file) && r.entry == Choose(file).0.h.entry
    ensures r.Entered? ==> mem[..] == Image(file, HeadersOf(file), destSize, old(mem[..]))
    ensures r in {Unrecognised, FileEnded, BadTable} ==> mem[..] == old(mem[..])
  {
    hide Open;
    var (o, f) := Choose(file);
    match o {
      case NotMine => return Unrecognised;
      case Truncated => return FileEnded;
      case ShortEntries => return BadTable;
      case Ready(h) =>
        var exe := new Executable(f, file, h);
        var ok := CopyAll(exe, mem, destSize);
        r := if ok then Entered(h.entry, Table(f, file, h)) else BadSeek;
    }
  }

  /** The loop over an executable's loadable segments. */
  method CopyAll(exe: Executable, mem: array<byte>, destSize: nat) returns (ok: bool)
    requires exe.Valid() && exe.currSeg == 0
    requires Fits(exe.file, exe.Headers(), destSize, mem.Length)
    modifies exe, mem
    ensures ok == Seekable(exe.Headers(), destSize)
    ensures ok ==> mem[..] == Image(exe.file, exe.Headers(), destSize, old(mem[..]))
  {
    hide Open, Entry, Table, Image, SegmentStored, Extent;
    ghost var t, before, done := exe.Headers(), mem[..], 0;
    ImageOfNothing(exe.file, destSize, before);
    while true
      invariant exe.Valid() && done == exe.currSeg <= |t|
      invariant Seekable(t[..done], destSize)
      invariant mem[..] == Image(exe.file, t[..done], destSize, before)
      decreases |t| - exe.currSeg
    {
      var p := exe.NextSegment();
      if p.None? {
        SkippedHeaders(exe.file, t, destSize, before, done, |t|);
        assert t[..|t|] == t;
        return true;
      }
      SkippedHeaders(exe.file, t, destSize, before, done, exe.currSeg - 1);
      done := exe.currSeg - 1;
      ImageNext(exe.file, t, destSize, before, done);
      if Accepted(p.value, destSize) {
        if p.value.offset >= 0x8000_0000_0000_0000 { return false; }
        exe.CopySegment(p.value, mem);
      }
      done := done + 1;
    }
  }

  lemma ImageOfNothing(file: seq<byte>, destSize: nat, mem: seq<byte>)
    ensures Image(file, [], destSize, mem) == mem
  {
  }

  lemma ImageNext(file: seq<byte>, t: seq<Phdr>, destSize: nat, mem: seq<byte>, k: nat)
    requires k < |t|
    ensures var before := Image(file, t[..k], destSize, mem);
      Image(file, t[..k + 1], destSize, mem) ==
      if Accepted(t[k], destSize) then SegmentStored(file, t[k], before) else before
    ensures Seekable(t[..k + 1], destSize) <==>
      Seekable(t[..k], destSize) && (Accepted(t[k], destSize) ==> t[k].offset < 0x8000_0000_0000_0000)
  {
    assert t[..k + 1][..k] == t[..k];
  }

  /** Headers of another kind leave no trace. */
  lemma {:induction false} SkippedHeaders(file: seq<byte>, t: seq<Phdr>, destSize: nat, mem: seq<byte>, i: nat, j: nat)
    requires i <= j <= |t| && forall k :: i <= k < j ==> t[k].kind != PT_LOAD
    ensures Image(file, t[..j], destSize, mem) == Image(file, t[..i], destSize, mem)
    ensures Seekable(t[..j], destSize) == Seekable(t[..i], destSize)
    decreases j - i
  {
    hide Image;
    if i < j {
      SkippedHeaders(file, t, destSize, mem, i, j - 1);
      ImageNext(file, t, destSize, mem, j - 1);
    }
  }
}
