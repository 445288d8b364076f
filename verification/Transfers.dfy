/** What a multi-sector transfer means for the disk and for the words a guest sees. */
module Transfers {
  import opened Machine
  import opened Disk

  /** Byte t of a buffer of words. */
  function WordByte(data: seq<word>, t: nat): byte
    requires t / 2 < |data|
  {
    if t % 2 == 0 then Low(data[t / 2]) else High(data[t / 2])
  }

  /** Which sector of a transfer to lba goes to a block: sector numbers wrap with the block address. */
  function SectorAt(lba: u32, block: nat): (i: nat)
    ensures i < BLOCKS
  {
    (block - lba) % BLOCKS
  }

  lemma SectorGoesTo(lba: u32, i: nat, block: nat)
    requires i < BLOCKS && block < BLOCKS
    ensures SectorAt(lba, block) == i <==> block == (lba + i) % BLOCKS
  {
    var r := (lba + i) % BLOCKS;
    DivisionLaw(lba + i, BLOCKS);
    RemainderUnique(r - lba, BLOCKS, -((lba + i) / BLOCKS), i);
    if SectorAt(lba, block) == i {
      DivisionLaw(block - lba, BLOCKS);
      RemainderUnique(lba + i, BLOCKS, -((block - lba) / BLOCKS), block);
    }
  }

  /** Without a wrap the sectors follow one another from lba on. */
  lemma SectorsInPlace(lba: u32, n: nat, block: nat)
    requires lba + n <= BLOCKS && block < BLOCKS
    ensures SectorAt(lba, block) < n <==> lba <= block < lba + n
    ensures lba <= block ==> SectorAt(lba, block) == block - lba
  {
  }

  function DiskByte(disk: seq<byte>, lba: u32, k: nat, data: seq<word>, b: nat): byte
    requires WORDS * k <= |data| && b < |disk|
  {
    var i := SectorAt(lba, b / BLOCK);
    if i < k then WordByte(data, BLOCK * i + b % BLOCK) else disk[b]
  }

  /** The disk with k whole sectors from lba on replaced by the data; sectors off its end are dropped. */
  function DiskAfter(disk: seq<byte>, lba: u32, k: nat, data: seq<word>): (r: seq<byte>)
    requires WORDS * k <= |data|
    ensures |r| == |disk|
  {
    seq(|disk|, b requires 0 <= b < |disk| => DiskByte(disk, lba, k, data, b))
  }

  // ----- writing

  /** i sectors and j words of the next have been transferred. */
  predicate Writing(h: Hdd, disk: seq<byte>, lba: u32, n: byte, data: seq<word>, i: nat, j: nat) {
    && h.Valid() && IsDisk(disk) && |data| == WORDS * n && i <= n && j < WORDS && (i == n ==> j == 0)
    && !h.fault
    && h.lba == lba && h.total == n && h.current == i && h.position == 2 * j
    && (forall t :: 0 <= t < 2 * j ==> h.buffer[t] == WordByte(data, BLOCK * i + t))
    && h.disk == DiskAfter(disk, lba, i, data)
    && h.r.sts == (if i == n then 0 else if j == 0 then DRQ else BUSY + DRQ)
  }

  lemma WordStored(h: Hdd, val: word, data: seq<word>, i: nat, j: nat)
    requires h.Valid() && h.position == 2 * j && j < WORDS && WORDS * i + j < |data| && val == data[WORDS * i + j]
    requires forall t :: 0 <= t < 2 * j ==> h.buffer[t] == WordByte(data, BLOCK * i + t)
    ensures forall t :: 0 <= t < 2 * (j + 1) ==> StoreWord(h, val).buffer[t] == WordByte(data, BLOCK * i + t)
  {
    var at := BLOCK * i + 2 * j;
    assert at / 2 == WORDS * i + j && at % 2 == 0 && (at + 1) / 2 == WORDS * i + j && (at + 1) % 2 == 1;
  }

  /** A written block replaces the bytes at its wrapped address. */
  lemma BlockWrittenAt(disk: seq<byte>, buffer: seq<byte>, index: u32, b: nat)
    requires IsDisk(disk) && |buffer| == BLOCK && b < |disk|
    ensures BlockWritten(disk, buffer, index)[b] ==
            if b / BLOCK == index % BLOCKS then buffer[b % BLOCK] else disk[b]
  {
    hide BlockAddress;
    AddressWraps(index);
    if BlockAddress(index) < |disk| { BlockFits(disk, index); }
  }

  lemma SectorStored(disk: seq<byte>, lba: u32, i: nat, data: seq<word>, buffer: seq<byte>)
    requires IsDisk(disk) && WORDS * (i + 1) <= |data| && |buffer| == BLOCK && i < BLOCKS
    requires forall t :: 0 <= t < BLOCK ==> buffer[t] == WordByte(data, BLOCK * i + t)
    ensures IsDisk(DiskAfter(disk, lba, i, data))
    ensures BlockWritten(DiskAfter(disk, lba, i, data), buffer, (lba + i) % 0x1_0000_0000) ==
            DiskAfter(disk, lba, i + 1, data)
  {
    hide SectorAt, WordByte, BlockWritten;
    var before, after := DiskAfter(disk, lba, i, data), DiskAfter(disk, lba, i + 1, data);
    var index := (lba + i) % 0x1_0000_0000;
    SameBlock(lba + i);
    forall b | 0 <= b < |disk| ensures BlockWritten(before, buffer, index)[b] == after[b] {
      BlockWrittenAt(before, buffer, index, b);
      SectorGoesTo(lba, i, b / BLOCK);
    }
  }

  lemma SameBlock(v: nat)
    ensures v % 0x1_0000_0000 % BLOCKS == v % BLOCKS
  {
  }

  /** One word moves the transfer on; the last of a sector puts it on the disk. */
  lemma WriteAdvances(h: Hdd, disk: seq<byte>, lba: u32, n: byte, data: seq<word>, i: nat, j: nat)
    requires Writing(h, disk, lba, n, data, i, j) && i < n
    ensures var h' := WriteBr(h, data[WORDS * i + j]);
      if j + 1 < WORDS then Writing(h', disk, lba, n, data, i, j + 1) else Writing(h', disk, lba, n, data, i + 1, 0)
  {
    var val := data[WORDS * i + j];
    WordStored(h, val, data, i, j);
    hide WordByte, DiskAfter, BlockWritten, IsDisk;
    var h1 := StoreWord(h, val);
    if j + 1 == WORDS {
      SectorStored(disk, lba, i, data, h1.buffer);
      assert NextIndex(h1) == (lba + i) % 0x1_0000_0000;
    }
  }

  // ----- reading

  /**
   * The buffer the i-th sector of a first read is delivered from. The first block is fetched before
   * lba is set, and a block off the end of the disk leaves the buffer as it was.
   */
  function Sector(disk: seq<byte>, initial: seq<byte>, lba: u32, i: nat): (r: seq<byte>)
    requires IsDisk(disk) && |initial| == BLOCK
    ensures |r| == BLOCK
  {
    if i == 0 then BlockRead(disk, initial, 0)
    else BlockRead(disk, Sector(disk, initial, lba, i - 1), (lba + i) % 0x1_0000_0000)
  }

  function BufferWord(buffer: seq<byte>, j: nat): word
    requires |buffer| == BLOCK && j < WORDS
  {
    WordOf(buffer[2 * j], buffer[2 * j + 1])
  }

  /** The words a first read of n sectors at lba delivers. */
  function ReadBack(disk: seq<byte>, initial: seq<byte>, lba: u32, n: nat): (r: seq<word>)
    requires IsDisk(disk) && |initial| == BLOCK
    ensures |r| == WORDS * n
  {
    seq(WORDS * n, k requires 0 <= k < WORDS * n => BufferWord(Sector(disk, initial, lba, k / WORDS), k % WORDS))
  }

  predicate Reading(h: Hdd, disk: seq<byte>, initial: seq<byte>, lba: u32, n: nat, i: nat, j: nat) {
    && h.Valid() && IsDisk(disk) && |initial| == BLOCK && 0 < n && i <= n && j < WORDS && (i == n ==> j == 0)
    && !h.fault
    && h.lba == lba && h.total == n && h.current == (if i < n then i + 1 else n)
    && h.position == j && (j > 0 ==> h.viewed) && h.disk == disk
    && (i < n ==> h.buffer == Sector(disk, initial, lba, i))
    && h.r.sts == (if i == n then 0 else if j == 0 then DRQ else BUSY + DRQ)
  }

  /** The word delivered is the one the buffer of the current sector holds. */
  lemma ReadDelivers(h: Hdd, disk: seq<byte>, initial: seq<byte>, lba: u32, n: nat, i: nat, j: nat)
    requires Reading(h, disk, initial, lba, n, i, j) && i < n
    ensures ReadBr(h).0 == ReadBack(disk, initial, lba, n)[WORDS * i + j]
  {
    assert (WORDS * i + j) / WORDS == i && (WORDS * i + j) % WORDS == j;
    hide BlockRead, WordOf, IsDisk, SetBit, ClearBit;
  }

  /** Between sectors the status goes back to data-request only, and clear after the last. */
  lemma SectorRead(h: Hdd, disk: seq<byte>, initial: seq<byte>, lba: u32, n: nat, i: nat)
    requires h.Valid() && IsDisk(disk) && |initial| == BLOCK && i < n
    requires !h.fault && h.lba == lba && h.total == n && h.current == i + 1
    requires h.disk == disk && h.r.sts == BUSY + DRQ && h.buffer == Sector(disk, initial, lba, i)
    ensures Reading(FinishRead(h), disk, initial, lba, n, i + 1, 0)
  {
    hide BlockRead, IsDisk;
  }

  lemma ReadAdvances(h: Hdd, disk: seq<byte>, initial: seq<byte>, lba: u32, n: nat, i: nat, j: nat)
    requires Reading(h, disk, initial, lba, n, i, j) && i < n
    ensures var (val, h') := ReadBr(h);
      && val == ReadBack(disk, initial, lba, n)[WORDS * i + j]
      && if j + 1 < WORDS then Reading(h', disk, initial, lba, n, i, j + 1)
         else Reading(h', disk, initial, lba, n, i + 1, 0)
  {
    ReadDelivers(h, disk, initial, lba, n, i, j);
    hide ReadBack, FinishRead, WordOf, IsDisk;
    if j + 1 == WORDS {
      SectorRead(FetchWord(h), disk, initial, lba, n, i);
    }
  }

  // ----- what the transfers amount to

  /** A block of the disk. */
  function Block(disk: seq<byte>, block: nat): (r: seq<byte>)
    requires BLOCK * (block + 1) <= |disk|
    ensures |r| == BLOCK
  {
    disk[BLOCK * block..BLOCK * block + BLOCK]
  }

  /** The words that were asked for. */
  function Requested(disk: seq<byte>, lba: nat, n: nat): (r: seq<word>)
    requires BLOCK * (lba + n) <= |disk|
    ensures |r| == WORDS * n
  {
    seq(WORDS * n, k requires 0 <= k < WORDS * n => BufferWord(Block(disk, lba + k / WORDS), k % WORDS))
  }

  /** A sector that exists is delivered, but for the first, which is always block 0. */
  lemma SectorThatExists(disk: seq<byte>, initial: seq<byte>, lba: u32, i: nat)
    requires IsDisk(disk) && |initial| == BLOCK && BLOCK * ((lba + i) % BLOCKS + 1) <= |disk|
    ensures Sector(disk, initial, lba, i) == Block(disk, if i == 0 then 0 else (lba + i) % BLOCKS)
  {
    hide Block, BlockRead;
    if i == 0 { BlockReadAt(disk, initial, 0); } else { NextSector(disk, initial, lba, i); }
  }

  /** Any other, but for the first, repeats the one before. */
  lemma SectorOffTheEnd(disk: seq<byte>, initial: seq<byte>, lba: u32, i: nat)
    requires IsDisk(disk) && |initial| == BLOCK && i > 0 && |disk| <= BLOCK * ((lba + i) % BLOCKS)
    ensures Sector(disk, initial, lba, i) == Sector(disk, initial, lba, i - 1)
  {
    hide Sector;
    NextSector(disk, initial, lba, i);
  }

  lemma NextSector(disk: seq<byte>, initial: seq<byte>, lba: u32, i: nat)
    requires IsDisk(disk) && |initial| == BLOCK && i > 0
    ensures var (block, before) := ((lba + i) % BLOCKS, Sector(disk, initial, lba, i - 1));
      && (BLOCK * (block + 1) <= |disk| ==> Sector(disk, initial, lba, i) == Block(disk, block))
      && (|disk| <= BLOCK * block ==> Sector(disk, initial, lba, i) == before)
  {
    hide BlockRead, Block;
    SameBlock(lba + i);
    BlockReadAt(disk, Sector(disk, initial, lba, i - 1), (lba + i) % 0x1_0000_0000);
  }

  lemma BlockReadAt(disk: seq<byte>, buffer: seq<byte>, index: u32)
    requires IsDisk(disk) && |buffer| == BLOCK
    ensures BLOCK * (index % BLOCKS + 1) <= |disk| ==> BlockRead(disk, buffer, index) == Block(disk, index % BLOCKS)
    ensures |disk| <= BLOCK * (index % BLOCKS) ==> BlockRead(disk, buffer, index) == buffer
  {
    hide BlockAddress;
    AddressWraps(index);
  }

  /** Exactly the blocks the sectors go to hold the data; every other byte is untouched. */
  lemma WrittenSectors(disk: seq<byte>, lba: u32, n: nat, data: seq<word>, block: nat, j: nat)
    requires IsDisk(disk) && |data| == WORDS * n && BLOCK * (block + 1) <= |disk| && j < WORDS
    ensures BufferWord(Block(DiskAfter(disk, lba, n, data), block), j) ==
            (var i := SectorAt(lba, block);
             if i < n then data[WORDS * i + j] else BufferWord(Block(disk, block), j))
  {
    hide SectorAt;
    var (after, i, b) := (DiskAfter(disk, lba, n, data), SectorAt(lba, block), BLOCK * block + 2 * j);
    assert b / BLOCK == block && b % BLOCK == 2 * j && (b + 1) / BLOCK == block && (b + 1) % BLOCK == 2 * j + 1;
    if i < n {
      var (k, t) := (WORDS * i + j, BLOCK * i + 2 * j);
      assert t / 2 == k && t % 2 == 0 && (t + 1) / 2 == k && (t + 1) % 2 == 1;
      assert after[b] == WordByte(data, t) && after[b + 1] == WordByte(data, t + 1);
      assert WordOf(Low(data[k]), High(data[k])) == data[k];
    }
  }

  /** The disk a guest means to leave: sector i at block lba + i, or nowhere. */
  function Meant(disk: seq<byte>, lba: u32, n: nat, data: seq<word>): (r: seq<byte>)
    requires WORDS * n <= |data|
    ensures |r| == |disk|
  {
    seq(|disk|, b requires 0 <= b < |disk| =>
      if lba <= b / BLOCK < lba + n then WordByte(data, BLOCK * (b / BLOCK - lba) + b % BLOCK) else disk[b])
  }

  /** No sector wraps onto a block that exists. */
  predicate NoneWraps(sectors: nat, lba: u32, n: nat) {
    forall i :: 0 <= i < n ==> !Wraps(sectors, lba, i)
  }

  predicate Wraps(sectors: nat, lba: u32, i: nat) {
    lba + i >= BLOCKS && (lba + i) % BLOCKS < sectors
  }

  predicate WritesRight(disk: seq<byte>, lba: u32, n: nat, data: seq<word>)
    requires WORDS * n <= |data|
  {
    DiskAfter(disk, lba, n, data) == Meant(disk, lba, n, data)
  }

  /** A write leaves what the guest means, whatever the disk and the data, exactly when none of its sectors wraps. */
  lemma WriteIsRight(sectors: nat, lba: u32, n: byte)
    requires sectors < BLOCKS
    ensures (forall disk: seq<byte>, data: seq<word> ::
               |disk| == BLOCK * sectors && |data| == WORDS * n ==> WritesRight(disk, lba, n, data))
            <==> NoneWraps(sectors, lba, n)
  {
    if NoneWraps(sectors, lba, n) {
      forall disk: seq<byte>, data: seq<word> | |disk| == BLOCK * sectors && |data| == WORDS * n
        ensures WritesRight(disk, lba, n, data)
      {
        UnwrappedIsRight(disk, sectors, lba, n, data);
      }
    } else {
      var i :| 0 <= i < n && Wraps(sectors, lba, i);
      WrappedIsWrong(sectors, lba, n, i);
      var disk: seq<byte>, data: seq<word> := seq(BLOCK * sectors, _ => 0), seq(WORDS * n, _ => 0xffff);
      assert !WritesRight(disk, lba, n, data);
    }
  }

  lemma UnwrappedIsRight(disk: seq<byte>, sectors: nat, lba: u32, n: byte, data: seq<word>)
    requires |disk| == BLOCK * sectors && sectors < BLOCKS && |data| == WORDS * n && NoneWraps(sectors, lba, n)
    ensures WritesRight(disk, lba, n, data)
  {
    hide WordByte, SectorAt;
    forall b | 0 <= b < |disk| ensures DiskAfter(disk, lba, n, data)[b] == Meant(disk, lba, n, data)[b] {
      var (block, i) := (b / BLOCK, SectorAt(lba, b / BLOCK));
      SectorGoesTo(lba, i, block);
      assert i < n ==> !Wraps(sectors, lba, i);
      if lba <= block < lba + n { SectorGoesTo(lba, block - lba, block); }
    }
  }

  lemma WrappedIsWrong(sectors: nat, lba: u32, n: byte, i: nat)
    requires sectors < BLOCKS && i < n && Wraps(sectors, lba, i)
    ensures var (disk, data) := (seq(BLOCK * sectors, _ => 0 as byte), seq(WORDS * n, _ => 0xffff as word));
      !WritesRight(disk, lba, n, data)
  {
    var disk: seq<byte>, data: seq<word> := seq(BLOCK * sectors, _ => 0), seq(WORDS * n, _ => 0xffff);
    var (block, b) := ((lba + i) % BLOCKS, BLOCK * ((lba + i) % BLOCKS));
    assert b / BLOCK == block && b % BLOCK == 0;
    SectorGoesTo(lba, i, block);
    DivisionLaw(lba + i, BLOCKS);
    assert block < lba;
    hide SectorAt;
    assert DiskAfter(disk, lba, n, data)[b] == WordByte(data, BLOCK * i) == 0xff;
    assert Meant(disk, lba, n, data)[b] == 0;
  }

  /** From block 0 on a first read delivers what was asked for. */
  lemma ReadFromZero(disk: seq<byte>, initial: seq<byte>, n: nat)
    requires IsDisk(disk) && |initial| == BLOCK && BLOCK * n <= |disk|
    ensures ReadBack(disk, initial, 0, n) == Requested(disk, 0, n)
  {
    hide Sector, Block, BufferWord;
    forall k | 0 <= k < WORDS * n ensures ReadBack(disk, initial, 0, n)[k] == Requested(disk, 0, n)[k] {
      SectorThatExists(disk, initial, 0, k / WORDS);
    }
  }

  /** Sectors written from block 0 on read back unchanged and in order. */
  lemma ReadUndoesWrite(disk: seq<byte>, initial: seq<byte>, n: nat, data: seq<word>)
    requires IsDisk(disk) && |initial| == BLOCK && |data| == WORDS * n && BLOCK * n <= |disk|
    ensures IsDisk(DiskAfter(disk, 0, n, data)) && ReadBack(DiskAfter(disk, 0, n, data), initial, 0, n) == data
  {
    var after := DiskAfter(disk, 0, n, data);
    ReadFromZero(after, initial, n);
    forall k | 0 <= k < WORDS * n ensures Requested(after, 0, n)[k] == data[k] {
      WrittenSectors(disk, 0, n, data, k / WORDS, k % WORDS);
      SectorsInPlace(0, n, k / WORDS);
      assert WORDS * (k / WORDS) + k % WORDS == k;
    }
  }

  /** What a read was asked for is what it gets. */
  predicate ReadsRight(disk: seq<byte>, initial: seq<byte>, lba: u32, n: nat)
    requires IsDisk(disk) && |initial| == BLOCK && BLOCK * (lba + n) <= |disk|
  {
    ReadBack(disk, initial, lba, n) == Requested(disk, lba, n)
  }

  /** A first read delivers what was asked for, whatever the disk holds, only at block 0. */
  lemma FirstReadIsRight(sectors: nat, lba: nat, n: nat)
    requires 0 < n && lba + n <= sectors < BLOCKS
    ensures (forall disk: seq<byte>, initial: seq<byte> ::
               |disk| == BLOCK * sectors && |initial| == BLOCK ==> ReadsRight(disk, initial, lba, n)) <==> lba == 0
  {
    if lba == 0 {
      forall disk: seq<byte>, initial: seq<byte> | |disk| == BLOCK * sectors && |initial| == BLOCK
        ensures ReadsRight(disk, initial, lba, n)
      {
        ReadFromZero(disk, initial, n);
      }
    } else {
      var disk: seq<byte> := seq(BLOCK * sectors, b => if b == 0 then 1 else 0);
      var initial: seq<byte> := seq(BLOCK, b => 0);
      hide Sector;
      SectorThatExists(disk, initial, lba, 0);
      assert ReadBack(disk, initial, lba, n)[0] == BufferWord(Block(disk, 0), 0) == 1;
      assert Requested(disk, lba, n)[0] == BufferWord(Block(disk, lba), 0) == 0;
      assert !ReadsRight(disk, initial, lba, n);
    }
  }
}
