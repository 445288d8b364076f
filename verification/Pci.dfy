/** PCI configuration space: one device's register block, and the host bridge in front of them all. */
module Pci {
  import opened Machine

  const BLOCK_SIZE := 192

  /** Access widths in bytes. */
  predicate IsWidth(n: nat) { n == 1 || n == 2 || n == 4 }

  function Ones(n: nat): nat { Pow256(n) - 1 }

  // ----- one block

  /** A read of n bytes; out of bounds it is 0. */
  function Get(block: seq<byte>, offset: nat, n: nat): (v: nat)
    ensures v < Pow256(n)
  {
    if offset + n > |block| then 0
    else
      ToFromBytes(block[offset..offset + n]);
      FromBytes(block[offset..offset + n])
  }

  /** A write of n bytes; out of bounds it is ignored. */
  function Set(block: seq<byte>, offset: nat, n: nat, v: nat): (r: seq<byte>)
    ensures |r| == |block|
  {
    if offset + n > |block| then block else Patch(block, offset, ToBytes(v, n))
  }

  const BAR0 := 16
  const BAR1 := 20

  function Bar(block: seq<byte>, i: nat): u32
    requires |block| == BLOCK_SIZE
  {
    Pow256Values();
    if i > 5 then 0xffff_ffff else Get(block, BAR0 + 4 * i, 4)
  }

  function ClassCode(block: seq<byte>): nat
    requires |block| == BLOCK_SIZE
  {
    var a: int, b: int, c: int := block[9], block[10], block[11];
    a + b * 0x100 + c * 0x1_0000
  }

  /** The three class bytes lie behind the revision, the interface first. */
  lemma ClassAt(block: seq<byte>)
    requires |block| == BLOCK_SIZE
    ensures ClassCode(block) == Get(block, 9, 1) + 0x100 * Get(block, 10, 2)
  {
    OneByte(block, 9);
    TwoBytes(block, 10);
  }

  class Device {
    const registers: array<byte>

    ghost predicate Valid() {
      registers.Length == BLOCK_SIZE
    }

    constructor (vendorID: word, deviceID: word, classCode: nat)
      requires classCode < 0x100_0000
      ensures Valid() && fresh(registers)
      ensures Get(registers[..], 0, 2) == vendorID && Get(registers[..], 2, 2) == deviceID
      ensures ClassCode(registers[..]) == classCode
      ensures forall i :: 0 <= i < 6 ==> Bar(registers[..], i) == 0
    {
      registers := new byte[BLOCK_SIZE];
      new;
      registers[0], registers[1] := vendorID % 256, vendorID / 256;
      registers[2], registers[3] := deviceID % 256, deviceID / 256;
      registers[9], registers[10], registers[11] := classCode % 256, classCode / 0x100 % 256, classCode / 0x1_0000;
      forall i | 0 <= i < 24 { registers[BAR0 + i] := 0; }
      TwoBytes(registers[..], 0);
      TwoBytes(registers[..], 2);
      forall i | 0 <= i < 6 ensures Bar(registers[..], i) == 0 {
        ZeroBytes(registers[..][BAR0 + 4 * i..BAR0 + 4 * i + 4]);
      }
    }

    method WriteReg(offset: nat, n: nat, val: nat)
      requires Valid() && IsWidth(n) && val < Pow256(n)
      modifies registers
      ensures registers[..] == Set(old(registers[..]), offset, n, val)
    {
      if offset + n > BLOCK_SIZE { return; }
      var b := ToBytes(val, n);
      forall i | 0 <= i < n { registers[offset + i] := b[i]; }
    }

    method ReadReg(offset: nat, n: nat) returns (val: nat)
      requires Valid() && IsWidth(n)
      ensures val == Get(registers[..], offset, n)
    {
      if offset + n > BLOCK_SIZE { return 0; }
      val := FromBytes(registers[offset..offset + n]);
      assert registers[..][offset..offset + n] == registers[offset..offset + n];
    }

    method GetBar(i: nat) returns (bar: u32)
      requires Valid()
      ensures bar == Bar(registers[..], i)
    {
      if i > 5 { return 0xffff_ffff; }
      Pow256Values();
      bar := ReadReg(BAR0 + 4 * i, 4);
    }

    method SetBar(value: u32, i: nat)
      requires Valid()
      modifies registers
      ensures registers[..] == if i > 5 then old(registers[..]) else Set(old(registers[..]), BAR0 + 4 * i, 4, value)
    {
      if i > 5 { return; }
      Pow256Values();
      WriteReg(BAR0 + 4 * i, 4, value);
    }
  }

  lemma {:induction false} ZeroBytes(b: seq<byte>)
    requires forall i :: 0 <= i < |b| ==> b[i] == 0
    ensures FromBytes(b) == 0
  {
    if b != [] { ZeroBytes(b[1..]); }
  }

  lemma TwoBytes(block: seq<byte>, at: nat)
    requires at + 2 <= |block|
    ensures Get(block, at, 2) == (block[at] as int) + 256 * (block[at + 1] as int)
  {
    var s := block[at..at + 2];
    assert s[1..] == [block[at + 1]] && s[1..][1..] == [];
    assert FromBytes(s[1..]) == block[at + 1];
  }

  lemma FourBytes(block: seq<byte>, at: nat)
    requires at + 4 <= |block|
    ensures Get(block, at, 4) == Get(block, at, 2) + 0x1_0000 * Get(block, at + 2, 2)
  {
    var s := block[at..at + 4];
    var rest := block[at + 2..at + 4];
    assert s[1..][1..] == rest;
    assert FromBytes(s[1..]) == block[at + 1] + 256 * FromBytes(rest);
    assert FromBytes(s) == block[at] + 256 * FromBytes(s[1..]);
    TwoBytes(block, at);
  }

  /** A word read is its two byte reads, except that the last byte alone cannot be part of one. */
  lemma WordIsTwoBytes(block: seq<byte>, at: nat)
    requires |block| == BLOCK_SIZE
    ensures Get(block, at, 2) == Get(block, at, 1) + 256 * Get(block, at + 1, 1) <==>
              at != BLOCK_SIZE - 1 || block[BLOCK_SIZE - 1] == 0
  {
    if at + 2 <= BLOCK_SIZE {
      TwoBytes(block, at);
      OneByte(block, at);
      OneByte(block, at + 1);
    } else if at + 1 == BLOCK_SIZE {
      OneByte(block, at);
    }
  }

  lemma OneByte(block: seq<byte>, at: nat)
    requires at < |block|
    ensures Get(block, at, 1) == block[at]
  {
    assert block[at..at + 1] == [block[at]];
    assert [block[at]][1..] == [];
  }

  /** A long read is its two word reads unless it straddles the end of the block over a nonzero word. */
  lemma LongIsTwoWords(block: seq<byte>, at: nat)
    requires |block| == BLOCK_SIZE
    ensures Get(block, at, 4) == Get(block, at, 2) + 0x1_0000 * Get(block, at + 2, 2) <==>
              at + 4 <= BLOCK_SIZE || Get(block, at, 2) == 0
  {
    if at + 4 <= BLOCK_SIZE {
      FourBytes(block, at);
    }
  }

  /** What an absent device reads as: all bits set. */
  lemma OnesAre()
    ensures Ones(1) == 0xff && Ones(2) == 0xffff && Ones(4) == 0xffff_ffff
  {
    Pow256Values();
  }

  /** What was written is read back, and accesses that share no byte do not see each other. */
  lemma SetThenGet(block: seq<byte>, at: nat, n: nat, v: nat, at': nat, n': nat)
    requires v < Pow256(n)
    ensures at + n <= |block| ==> Get(Set(block, at, n, v), at, n) == v
    ensures at + n <= at' || at' + n' <= at ==> Get(Set(block, at, n, v), at', n') == Get(block, at', n')
  {
    var r := Set(block, at, n, v);
    if at + n <= |block| {
      assert r[at..at + n] == ToBytes(v, n);
      FromToBytes(v, n);
      SmallMod(v, Pow256(n));
    }
    if (at + n <= at' || at' + n' <= at) && at' + n' <= |block| {
      assert r[at'..at' + n'] == block[at'..at' + n'];
    }
  }

  lemma SmallMod(v: nat, m: nat)
    requires v < m
    ensures v % m == v
  {
  }

  // ----- the host bridge

  const CAP_ADDR: word := 0xcf8
  const CDP_ADDR: word := 0xcfc

  predicate IsPort(port: word) { port == CAP_ADDR || CDP_ADDR <= port < CDP_ADDR + 4 }

  /** The address register, what was decoded from it, and the connected devices' blocks. */
  datatype Host = Host(cap: u32, bus: nat, device: nat, function_: nat, offset: nat, blocks: seq<seq<byte>>) {
    predicate Valid() {
      device < 32 && |blocks| <= 32 && forall d :: 0 <= d < |blocks| ==> |blocks[d]| == BLOCK_SIZE
    }
    /** The selected device exists and so does its function. */
    predicate Present() { device < |blocks| && function_ == 0 }
  }

  /** The fields of a configuration address. */
  function Decode(h: Host, cap: u32): Host {
    h.(cap := cap, bus := cap / 0x1_0000 % 0x100, device := cap / 0x800 % 0x20,
       function_ := cap / 0x100 % 8, offset := cap % 0x100)
  }

  function HostWrite(h: Host, port: word, n: nat, v: nat): (r: Host)
    requires h.Valid() && IsPort(port) && IsWidth(n) && v < Pow256(n)
    ensures r.Valid()
  {
    Pow256Values();
    if port == CAP_ADDR then (if n == 4 then Decode(h, v) else h)
    else if !h.Present() then h
    else h.(blocks := h.blocks[h.device := Set(h.blocks[h.device], h.offset + (port - CDP_ADDR), n, v)])
  }

  function HostRead(h: Host, port: word, n: nat): (v: nat)
    requires h.Valid() && IsPort(port) && IsWidth(n)
    ensures v < Pow256(n)
  {
    Pow256Values();
    if port == CAP_ADDR then (if n == 4 then h.cap else Ones(n))
    else if !h.Present() || (n == 2 && h.bus != 0) then Ones(n)
    else Get(h.blocks[h.device], h.offset + (port - CDP_ADDR), n)
  }

  class HostBridge {
    var CAP: u32
    var bus: nat
    var device: nat
    var function_: nat
    var offset: nat
    const devices: seq<Device>
    /** The constructor's log line asks the second device for its name without looking whether there is one. */
    ghost const crashed: bool

    /** Up to 32 devices, each with its own registers. */
    ghost predicate Connected() {
      && |devices| <= 32
      && (forall d :: 0 <= d < |devices| ==> devices[d].Valid())
      && (forall d, e :: 0 <= d < e < |devices| ==> devices[d].registers != devices[e].registers)
    }

    /** The decoded fields can be used; they are indeterminate before the first address write. */
    ghost predicate Valid()
      reads this
    {
      Connected() && device < 32
    }

    ghost function Footprint(): set<object> {
      set d | 0 <= d < |devices| :: devices[d].registers
    }

    ghost function View(): (h: Host)
      requires Connected()
      reads this, Footprint()
      ensures Valid() ==> h.Valid()
    {
      Host(CAP, bus, device, function_, offset,
           seq(|devices|, d requires 0 <= d < |devices| reads Footprint() => devices[d].registers[..]))
    }

    /** ATA functions get the legacy ports; the fields decoded from the address register are not set. */
    constructor (devices: seq<Device>)
      requires |devices| <= 32 && (forall d :: 0 <= d < |devices| ==> devices[d].Valid())
      requires forall d, e :: 0 <= d < e < |devices| ==> devices[d].registers != devices[e].registers
      modifies set d | 0 <= d < |devices| :: devices[d].registers
      ensures Connected() && this.devices == devices && CAP == 0 && crashed == (|devices| == 1)
      ensures forall d :: 0 <= d < |devices| ==>
        devices[d].registers[..] == Initialised(old(devices[d].registers[..]))
    {
      this.devices := devices;
      CAP := 0;
      crashed := |devices| > 0 && !(1 < |devices|);
      new;
      for i := 0 to |devices|
        invariant Connected() && this.devices == devices && CAP == 0
        invariant forall d :: 0 <= d < i ==> devices[d].registers[..] == Initialised(old(devices[d].registers[..]))
        invariant forall d :: i <= d < |devices| ==> devices[d].registers[..] == old(devices[d].registers[..])
      {
        if ClassCode(devices[i].registers[..]) == ATA_CLASS {
          devices[i].SetBar(0x1f0, 0);
          devices[i].SetBar(0x3f6, 1);
        }
      }
    }

    /** A write; nothing but the address register may be accessed first. */
    method WriteReg(port: word, n: nat, val: nat)
      requires Connected() && (Valid() || (port == CAP_ADDR && n == 4))
      requires IsPort(port) && IsWidth(n) && val < Pow256(n)
      modifies this, Footprint()
      ensures Valid()
      ensures port == CAP_ADDR && n == 4 ==> View() == Decode(old(View()), val)
      ensures old(Valid()) ==> View() == HostWrite(old(View()), port, n, val)
    {
      hide Set;
      Pow256Values();
      if port == CAP_ADDR {
        if n == 4 {
          CAP := val;
          PrepareData();
        }
        return;
      }
      if device >= |devices| || function_ != 0 { return; }
      devices[device].WriteReg(offset + (port - CDP_ADDR), n, val);
    }

    method PrepareData()
      requires Connected()
      modifies this
      ensures Valid() && View() == Decode(old(View()), CAP)
      ensures CAP == old(CAP)
    {
      bus := CAP / 0x1_0000 % 0x100;
      device := CAP / 0x800 % 0x20;
      function_ := CAP / 0x100 % 8;
      offset := CAP % 0x100;
    }

    method ReadReg(port: word, n: nat) returns (val: nat)
      requires Valid() && IsPort(port) && IsWidth(n)
      ensures val == HostRead(View(), port, n)
    {
      if port == CAP_ADDR {
        return if n == 4 then CAP else Ones(n);
      }
      if (n == 2 && bus != 0) || device >= |devices| || function_ != 0 { return Ones(n); }
      val := devices[device].ReadReg(offset + (port - CDP_ADDR), n);
    }
  }

  const ATA_CLASS := 0x01_0100

  function Initialised(block: seq<byte>): seq<byte>
    requires |block| == BLOCK_SIZE
  {
    if ClassCode(block) == ATA_CLASS then Set(Set(block, BAR0, 4, 0x1f0), BAR1, 4, 0x3f6) else block
  }
}
