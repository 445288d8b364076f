/** The disk file as a block store, and the ATA registers in front of it. */
module Disk {
  import opened Machine

  const BLOCK := 512
  const WORDS := 256
  /** Block addresses repeat after this many blocks. */
  const BLOCKS := 0x80_0000

  /** One past the largest int. */
  const INT_END := 0x8000_0000

  datatype Status = NoErrors | OutOfBound | FileErrorOpen | FileErrorSize

  /** The byte address of a block index, with the source's 32-bit product. */
  function BlockAddress(index: u32): nat { index * BLOCK % 0x1_0000_0000 }

  /** The product keeps 23 bits of the index, so a block lies where its index says only below 2^23. */
  lemma AddressWraps(index: u32)
    ensures BlockAddress(index) == BLOCK * (index % BLOCKS)
    ensures BlockAddress(index) == BLOCK * index <==> index < BLOCKS
  {
  }

  /** A disk file holds whole blocks and fewer than 4 GiB. */
  predicate IsDisk(disk: seq<byte>) {
    |disk| % BLOCK == 0 && |disk| < 0x1_0000_0000
  }

  lemma BlockFits(disk: seq<byte>, index: u32)
    requires IsDisk(disk) && BlockAddress(index) < |disk|
    ensures BlockAddress(index) + BLOCK <= |disk|
  {
    assert BlockAddress(index) == index % 0x80_0000 * BLOCK;
    assert |disk| == |disk| / BLOCK * BLOCK;
  }

  /** The buffer after reading a block; out of range it is left alone. */
  function BlockRead(disk: seq<byte>, buffer: seq<byte>, index: u32): (r: seq<byte>)
    requires IsDisk(disk) && |buffer| == BLOCK
    ensures |r| == BLOCK
  {
    var at := BlockAddress(index);
    if at >= |disk| then buffer else BlockFits(disk, index); disk[at..at + BLOCK]
  }

  /** The disk after writing a block; out of range it is left alone. */
  function BlockWritten(disk: seq<byte>, buffer: seq<byte>, index: u32): (r: seq<byte>)
    requires IsDisk(disk) && |buffer| == BLOCK
    ensures |r| == |disk|
  {
    var at := BlockAddress(index);
    if at >= |disk| then disk else BlockFits(disk, index); Patch(disk, at, buffer)
  }

  /** A write is refused, whatever is written, exactly when the wrapped address is off the end. */
  lemma WriteRefused(disk: seq<byte>, index: u32)
    requires IsDisk(disk)
    ensures (forall buffer: seq<byte> :: |buffer| == BLOCK ==> BlockWritten(disk, buffer, index) == disk)
            <==> |disk| <= BLOCK * (index % BLOCKS)
  {
    AddressWraps(index);
    if BlockAddress(index) < |disk| {
      var at := BlockAddress(index);
      var buffer: seq<byte> := seq(BLOCK, _ => if disk[at] == 0 then 1 else 0);
      assert BlockWritten(disk, buffer, index)[at] != disk[at];
    }
  }

  class DiskManager {
    const diskSize: u32
    /** The disk file as it is found, empty if it cannot be read. */
    const file: array<byte>
    const writable: bool

    ghost predicate Valid() { diskSize % BLOCK == 0 }

    /** The file is the one the manager made or accepted. */
    ghost predicate Healthy()
      ensures Healthy() ==> IsDisk(file[..])
      reads file
    {
      Valid() && file.Length == diskSize && writable
    }

    /** Keeps a file of the right size and replaces any other by blocks of whatever a new buffer holds. */
    constructor (blocksNumber: u32, found: Option<array<byte>>, writable: bool)
      ensures Valid() && diskSize == blocksNumber * BLOCK % 0x1_0000_0000 && this.writable == writable
      ensures if found.Some? && found.value.Length == diskSize then file == found.value
              else fresh(file) && (diskSize < INT_END ==> BlocksRepeat(file, diskSize))
    {
      var size := blocksNumber * BLOCK % 0x1_0000_0000;
      AddressWraps(blocksNumber);
      diskSize, this.writable := size, writable;
      if found.Some? && found.value.Length == size {
        file := found.value;
      } else {
        var built := BuildDisk(size);
        file := built;
      }
    }

    /** Whole blocks, each like the one before. */
    static ghost predicate BlocksRepeat(file: array<byte>, size: u32)
      reads file
    {
      file.Length == size && forall b :: BLOCK <= b < size ==> file[b] == file[b - BLOCK]
    }

    /** The loop's int index ends the file where it can be complete; beyond, nothing is promised. */
    static method BuildDisk(size: u32) returns (file: array<byte>)
      requires size % BLOCK == 0
      ensures fresh(file) && (size < INT_END ==> BlocksRepeat(file, size))
    {
      var end := if size < INT_END then size else INT_END;
      var buffer := new byte[BLOCK];
      file := new byte[end];
      var i := 0;
      while i < end
        invariant 0 <= i <= end && i % BLOCK == 0
        invariant i > 0 ==> file[i - BLOCK..i] == buffer[..]
        invariant forall b :: BLOCK <= b < i ==> file[b] == file[b - BLOCK]
      {
        assert i + BLOCK <= end by { assert end - i == (end / BLOCK - i / BLOCK) * BLOCK; }
        ghost var before := file[..];
        forall k | 0 <= k < BLOCK { file[i + k] := buffer[k]; }
        assert file[i..i + BLOCK] == buffer[..];
        forall b | BLOCK <= b < i + BLOCK ensures file[b] == file[b - BLOCK] {
          if b >= i { assert before[i - BLOCK..i][b - i] == before[b - BLOCK] == buffer[b - i]; }
        }
        i := i + BLOCK;
      }
    }

    /** What the checks before an access come to. */
    function Check(index: u32, write: bool): Status {
      if BlockAddress(index) >= diskSize then OutOfBound
      else if file.Length != diskSize then FileErrorSize
      else if write && !writable then FileErrorOpen
      else NoErrors
    }

    method Read(buffer: array<byte>, index: u32) returns (status: Status)
      requires Valid() && buffer.Length == BLOCK && buffer != file
      modifies buffer
      ensures status == Check(index, false)
      ensures status == NoErrors ==>
        IsDisk(file[..]) && buffer[..] == file[BlockAddress(index)..BlockAddress(index) + BLOCK]
      ensures status != NoErrors ==> buffer[..] == old(buffer[..])
    {
      var at := index * BLOCK % 0x1_0000_0000;
      if at >= diskSize { return OutOfBound; }
      if file.Length != diskSize { return FileErrorSize; }
      BlockFits(file[..], index);
      forall i | 0 <= i < BLOCK { buffer[i] := file[at + i]; }
      status := NoErrors;
    }

    method Write(buffer: array<byte>, index: u32) returns (status: Status)
      requires Valid() && buffer.Length == BLOCK && buffer != file
      modifies file
      ensures status == Check(index, true)
      ensures status == NoErrors ==>
        BlockAddress(index) + BLOCK <= file.Length && file[..] == Patch(old(file[..]), BlockAddress(index), buffer[..])
      ensures status != NoErrors ==> file[..] == old(file[..])
    {
      var at := index * BLOCK % 0x1_0000_0000;
      if at >= diskSize { return OutOfBound; }
      if file.Length != diskSize { return FileErrorSize; }
      BlockFits(file[..], index);
      if !writable { return FileErrorOpen; }
      forall i | 0 <= i < BLOCK { file[at + i] := buffer[i]; }
      status := NoErrors;
    }
  }

  // ----- the controller as a function of its state

  const BUSY: byte := 0x80
  const DRQ: byte := 0x08

  const BR_ADDR: word := 0x1f0
  const ERR_ADDR: word := 0x1f1
  const SCR_ADDR: word := 0x1f2
  const SNR_ADDR: word := 0x1f3
  const CNL_ADDR: word := 0x1f4
  const CNH_ADDR: word := 0x1f5
  const HND_ADDR: word := 0x1f6
  const CMD_ADDR: word := 0x1f7
  const DCR_ADDR: word := 0x3f6
  const DAR_ADDR: word := 0x3f7

  const READ_SECTORS: byte := 0x20
  const WRITE_SECTORS: byte := 0x30

  /** The task-file registers. */
  datatype Registers = Registers(
    br: word, scr: byte, snr: byte, cnh: byte, cnl: byte, hnd: byte, err: byte, sts: byte, cmd: byte,
    dcr: byte, dar: byte, asr: byte)

  /**
   * The controller and the disk behind it. fault records that the source indexed outside its sector
   * buffer, or used its word view before setting it up; nothing is claimed of later states.
   */
  datatype Hdd = Hdd(
    r: Registers, interruptEnabled: bool, raised: bool, buffer: seq<byte>, viewed: bool,
    position: nat, total: nat, current: nat, lba: u32, disk: seq<byte>, fault: bool)
  {
    predicate Valid() {
      |buffer| == BLOCK && position < BLOCK - 1 && IsDisk(disk)
    }
  }

  function SetStatus(h: Hdd, sts: byte): Hdd { h.(r := h.r.(sts := sts)) }

  function ComputeLba(r: Registers): u32 {
    (r.hnd * 0x100_0000 + r.cnh * 0x1_0000 + r.cnl * 0x100 + r.snr) % 0x1000_0000
  }

  /** The block index of the next sector. */
  function NextIndex(h: Hdd): u32 { (h.lba + h.current) % 0x1_0000_0000 }

  function ReadFromBackend(h: Hdd): Hdd
    requires h.Valid()
  {
    h.(buffer := BlockRead(h.disk, h.buffer, NextIndex(h)), current := h.current + 1,
       raised := h.raised || h.interruptEnabled)
  }

  function ProcessCmd(h: Hdd): (n: Hdd)
    requires h.Valid()
    ensures n.Valid() && n.disk == h.disk
  {
    var ready := SetBit(ClearBit(h.r.sts, BUSY), DRQ);
    var h1 :=
      if h.r.cmd == WRITE_SECTORS then SetStatus(h, ready)
      else if h.r.cmd == READ_SECTORS then ReadFromBackend(SetStatus(h, ready))
      else h;
    h1.(lba := ComputeLba(h.r), total := h.r.scr)
  }

  /** The registers a guest may load; other addresses are ignored. */
  function Load(r: Registers, addr: word, val: byte): Registers {
    if addr == SCR_ADDR then r.(scr := val)
    else if addr == SNR_ADDR then r.(snr := val)
    else if addr == CNH_ADDR then r.(cnh := val)
    else if addr == CNL_ADDR then r.(cnl := val)
    else if addr == HND_ADDR then r.(hnd := val)
    else r
  }

  /** Only 0 enables interrupts; anything else but the documented 2 is taken for it. */
  function WriteDcr(h: Hdd, val: byte): Hdd {
    if val == 0 then h.(r := h.r.(dcr := val), interruptEnabled := true)
    else h.(r := h.r.(dcr := 2), interruptEnabled := false, raised := false)
  }

  function WriteByte(h: Hdd, addr: word, val: byte): (n: Hdd)
    requires h.Valid()
    ensures n.Valid() && n.disk == h.disk
  {
    if addr == CMD_ADDR then ProcessCmd(h.(r := h.r.(cmd := val)))
    else if addr == DCR_ADDR then WriteDcr(h, val)
    else h.(r := Load(h.r, addr, val))
  }

  function ReadByte(h: Hdd, addr: word): (byte, Hdd) {
    if addr == ERR_ADDR then (h.r.err, h)
    else if addr == SCR_ADDR then (h.r.scr, h)
    else if addr == SNR_ADDR then (h.r.snr, h)
    else if addr == CNH_ADDR then (h.r.cnh, h)
    else if addr == CNL_ADDR then (h.r.cnl, h)
    else if addr == CMD_ADDR then (h.r.sts, h.(raised := false))
    else if addr == DCR_ADDR then (h.r.asr, h)
    else if addr == DAR_ADDR then (h.r.dar, h)
    else (0, h)
  }

  /** A word as two bytes, low byte first. */
  function Low(w: word): byte { w % 256 }
  function High(w: word): byte { w / 256 }
  function WordOf(lo: byte, hi: byte): word {
    var l: int, h: int := lo, hi;
    l + 256 * h
  }

  /** The word at the current position goes into the buffer. */
  function StoreWord(h: Hdd, val: word): (n: Hdd)
    requires h.Valid()
    ensures n.Valid()
  {
    h.(r := h.r.(br := val, sts := SetBit(h.r.sts, BUSY)),
       buffer := h.buffer[h.position := Low(val)][h.position + 1 := High(val)])
  }

  /** A full buffer goes to the disk. */
  function FinishWrite(h: Hdd): (n: Hdd)
    requires h.Valid()
    ensures n.Valid() && |n.disk| == |h.disk|
  {
    var sts := SetBit(ClearBit(h.r.sts, BUSY), DRQ);
    h.(r := h.r.(sts := if h.total == h.current + 1 then ClearBit(sts, DRQ) else sts),
       position := 0, current := h.current + 1, disk := BlockWritten(h.disk, h.buffer, NextIndex(h)),
       raised := h.raised || h.interruptEnabled)
  }

  function WriteBr(h: Hdd, val: word): (n: Hdd)
    requires h.Valid()
    ensures n.Valid() && |n.disk| == |h.disk|
  {
    var h1 := StoreWord(h, val);
    if h.position + 2 < 511 then h1.(position := h.position + 2) else FinishWrite(h1)
  }

  /** The word at the current position is taken from the buffer. */
  function FetchWord(h: Hdd): (n: Hdd)
    requires h.Valid() && h.position < WORDS
    ensures n.Valid()
  {
    h.(r := h.r.(br := WordOf(h.buffer[2 * h.position], h.buffer[2 * h.position + 1]), sts := SetBit(h.r.sts, BUSY)),
       viewed := true)
  }

  /** The buffer is used up: the transfer ends, or the next sector is fetched. */
  function FinishRead(h: Hdd): (n: Hdd)
    requires h.Valid()
    ensures n.Valid() && n.disk == h.disk
  {
    var sts := SetBit(ClearBit(h.r.sts, BUSY), DRQ);
    if h.total == h.current then SetStatus(h, ClearBit(sts, DRQ)).(position := 0)
    else ReadFromBackend(SetStatus(h, sts).(position := 0))
  }

  function ReadBr(h: Hdd): (r: (word, Hdd))
    requires h.Valid()
    ensures r.1.Valid() && r.1.disk == h.disk
  {
    if h.position >= WORDS || (h.position > 0 && !h.viewed) then (0, h.(fault := true))
    else
      var h1 := FetchWord(h);
      (h1.r.br, if h.position + 1 < WORDS then h1.(position := h.position + 1) else FinishRead(h1))
  }

  function WriteWord(h: Hdd, addr: word, val: word): (n: Hdd)
    requires h.Valid()
    ensures n.Valid() && |n.disk| == |h.disk|
  {
    if addr == BR_ADDR then WriteBr(h, val) else h
  }

  function ReadWord(h: Hdd, addr: word): (r: (word, Hdd))
    requires h.Valid()
    ensures r.1.Valid() && r.1.disk == h.disk
  {
    if addr == BR_ADDR then ReadBr(h) else (0, h)
  }

  // ----- the controller

  class HardDisk {
    var BR: word
    var SCR: byte
    var SNR: byte
    var CNH: byte
    var CNL: byte
    var HND: byte
    var ERR: byte
    var STS: byte
    var CMD: byte
    var DCR: byte
    var DAR: byte
    var ASR: byte
    var interruptEnabled: bool
    var interruptRaised: bool
    const internalBuffer: array<byte>
    var viewed: bool
    var currentPosition: nat
    var sectorNumbersCmd: nat
    var currentSectorNumber: nat
    var lba: u32
    const diskManager: DiskManager
    ghost var fault: bool

    ghost predicate Valid()
      reads this, internalBuffer, diskManager, diskManager.file
    {
      && internalBuffer.Length == BLOCK && internalBuffer != diskManager.file
      && currentPosition < BLOCK - 1 && diskManager.Healthy()
    }

    ghost function View(): (h: Hdd)
      requires Valid()
      reads this, internalBuffer, diskManager, diskManager.file
      ensures h.Valid()
    {
      Hdd(Registers(BR, SCR, SNR, CNH, CNL, HND, ERR, STS, CMD, DCR, DAR, ASR), interruptEnabled, interruptRaised,
          internalBuffer[..], viewed, currentPosition, sectorNumbersCmd, currentSectorNumber, lba,
          diskManager.file[..], fault)
    }

    /** A fresh controller; its sector buffer starts out with arbitrary contents. */
    constructor (disk: DiskManager)
      requires disk.Healthy()
      ensures Valid() && fresh(internalBuffer) && diskManager == disk
      ensures exists b: seq<byte> :: |b| == BLOCK && View() == Fresh(b, disk.file[..])
    {
      BR, SCR, SNR, CNH, CNL, HND, ERR, STS, CMD := 0, 0, 0, 0, 0, 0, 0, 0, 0;
      DCR, DAR, ASR := 2, 0, 0;
      interruptEnabled, interruptRaised := false, false;
      internalBuffer := new byte[BLOCK];
      viewed, fault := false, false;
      currentPosition, sectorNumbersCmd, currentSectorNumber, lba := 0, 0, 0, 0;
      diskManager := disk;
      new;
      assert View() == Fresh(internalBuffer[..], disk.file[..]);
    }

    method ReadFromDisk()
      requires Valid()
      modifies this, internalBuffer
      ensures Valid() && View() == ReadFromBackend(old(View()))
    {
      ghost var (disk, before, index) := (diskManager.file[..], internalBuffer[..], NextIndex(View()));
      var status := diskManager.Read(internalBuffer, (lba + currentSectorNumber) % 0x1_0000_0000);
      assert internalBuffer[..] == BlockRead(disk, before, index);
      hide BlockRead;
      currentSectorNumber := currentSectorNumber + 1;
      if interruptEnabled { interruptRaised := true; }
    }

    method DoCommand()
      requires Valid()
      modifies this, internalBuffer
      ensures Valid() && View() == ProcessCmd(old(View()))
    {
      hide SetBit, ClearBit, BlockRead, IsDisk;
      if CMD == WRITE_SECTORS {
        STS := SetBit(ClearBit(STS, BUSY), DRQ);
      } else if CMD == READ_SECTORS {
        STS := SetBit(ClearBit(STS, BUSY), DRQ);
        ReadFromDisk();
      }
      lba := ComputeLba(Registers(BR, SCR, SNR, CNH, CNL, HND, ERR, STS, CMD, DCR, DAR, ASR));
      sectorNumbersCmd := SCR;
    }

    method DoStoreWord(val: word)
      requires Valid()
      modifies this, internalBuffer
      ensures Valid() && View() == StoreWord(old(View()), val)
    {
      hide SetBit, Low, High;
      ghost var buffer := internalBuffer[..][currentPosition := Low(val)][currentPosition + 1 := High(val)];
      BR := val;
      STS := SetBit(STS, BUSY);
      internalBuffer[currentPosition] := Low(val);
      internalBuffer[currentPosition + 1] := High(val);
      assert internalBuffer[..] == buffer;
    }

    method DoFinishWrite()
      requires Valid()
      modifies this, diskManager.file
      ensures Valid() && View() == FinishWrite(old(View()))
    {
      var status := diskManager.Write(internalBuffer, (lba + currentSectorNumber) % 0x1_0000_0000);
      EndSector();
    }

    method EndSector()
      requires Valid()
      modifies this
      ensures Valid() && View() == FinishWrite(old(View())).(disk := old(View()).disk)
    {
      hide BlockWritten, SetBit, ClearBit, IsDisk;
      currentPosition := 0;
      currentSectorNumber := currentSectorNumber + 1;
      STS := SetBit(ClearBit(STS, BUSY), DRQ);
      if sectorNumbersCmd == currentSectorNumber { STS := ClearBit(STS, DRQ); }
      if interruptEnabled { interruptRaised := true; }
    }

    method WriteBrRegister(val: word)
      requires Valid()
      modifies this, internalBuffer, diskManager.file
      ensures Valid() && View() == WriteBr(old(View()), val)
    {
      hide StoreWord, FinishWrite;
      var next := currentPosition + 2;
      DoStoreWord(val);
      if next < 511 {
        currentPosition := next;
      } else {
        DoFinishWrite();
      }
    }

    method DoFetchWord()
      requires Valid() && currentPosition < WORDS
      modifies this
      ensures Valid() && View() == FetchWord(old(View()))
    {
      hide SetBit, WordOf;
      STS := SetBit(STS, BUSY);
      viewed := true;
      BR := WordOf(internalBuffer[2 * currentPosition], internalBuffer[2 * currentPosition + 1]);
    }

    method DoFinishRead()
      requires Valid()
      modifies this, internalBuffer
      ensures Valid() && View() == FinishRead(old(View()))
    {
      hide ReadFromBackend, SetBit, ClearBit;
      STS := SetBit(ClearBit(STS, BUSY), DRQ);
      currentPosition := 0;
      if sectorNumbersCmd == currentSectorNumber {
        STS := ClearBit(STS, DRQ);
      } else {
        ReadFromDisk();
      }
    }

    method ReadBrRegister() returns (val: word)
      requires Valid()
      modifies this, internalBuffer
      ensures Valid() && (val, View()) == ReadBr(old(View()))
    {
      hide FetchWord, FinishRead;
      if currentPosition >= WORDS || (currentPosition > 0 && !viewed) {
        fault := true;
        return 0;
      }
      var next := currentPosition + 1;
      DoFetchWord();
      val := BR;
      if next < WORDS {
        currentPosition := next;
      } else {
        DoFinishRead();
      }
    }

    method DoLoad(addr: word, val: byte)
      requires Valid()
      modifies this
      ensures Valid() && View() == old(View()).(r := Load(old(View()).r, addr, val))
    {
      match addr {
        case 0x1f2 => SCR := val;
        case 0x1f3 => SNR := val;
        case 0x1f5 => CNH := val;
        case 0x1f4 => CNL := val;
        case 0x1f6 => HND := val;
        case _ =>
      }
    }

    method DoWriteDcr(val: byte)
      requires Valid()
      modifies this
      ensures Valid() && View() == WriteDcr(old(View()), val)
    {
      if val == 0 {
        DCR, interruptEnabled := val, true;
      } else {
        DCR, interruptEnabled, interruptRaised := 2, false, false;
      }
    }

    method WriteRegByte(addr: word, val: byte)
      requires Valid()
      modifies this, internalBuffer
      ensures Valid() && View() == WriteByte(old(View()), addr, val)
    {
      hide ProcessCmd, WriteDcr, Load;
      if addr == CMD_ADDR {
        CMD := val;
        DoCommand();
      } else if addr == DCR_ADDR {
        DoWriteDcr(val);
      } else {
        DoLoad(addr, val);
      }
    }

    method ReadRegByte(addr: word) returns (result: byte)
      requires Valid()
      modifies this
      ensures Valid() && (result, View()) == ReadByte(old(View()), addr)
    {
      result := 0;
      match addr {
        case 0x1f1 => result := ERR;
        case 0x1f2 => result := SCR;
        case 0x1f3 => result := SNR;
        case 0x1f5 => result := CNH;
        case 0x1f4 => result := CNL;
        case 0x1f7 =>
          result := STS;
          interruptRaised := false;
        case 0x3f6 => result := ASR;
        case 0x3f7 => result := DAR;
        case _ =>
      }
    }

    method WriteRegWord(addr: word, val: word)
      requires Valid()
      modifies this, internalBuffer, diskManager.file
      ensures Valid() && View() == WriteWord(old(View()), addr, val)
    {
      hide WriteBr;
      if addr == BR_ADDR { WriteBrRegister(val); }
    }

    method ReadRegWord(addr: word) returns (result: word)
      requires Valid()
      modifies this, internalBuffer
      ensures Valid() && (result, View()) == ReadWord(old(View()), addr)
    {
      hide ReadBr;
      result := 0;
      if addr == BR_ADDR { result := ReadBrRegister(); }
    }
  }

  /** The state after power on. */
  function Fresh(buffer: seq<byte>, disk: seq<byte>): (h: Hdd)
    requires |buffer| == BLOCK && IsDisk(disk)
    ensures h.Valid()
  {
    Hdd(Registers(0, 0, 0, 0, 0, 0, 0, 0, 0, 2, 0, 0), false, false, buffer, false, 0, 0, 0, 0, disk, false)
  }
}
