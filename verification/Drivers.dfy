/** The repository's guest drivers run against the emulated controller (target-sources/pci-hdd-1.cpp, pci-hdd-2.cpp). */
module Drivers {
  import opened Machine
  import opened Disk
  import opened AtaBridge
  import opened Transfers
  import Pci

  /** The driver's port accesses, named by register. */
  class Driver {
    const bridge: Bridge

    ghost predicate Valid()
      reads bridge.config.registers, bridge.hdd, bridge.hdd.internalBuffer, bridge.hdd.diskManager,
            bridge.hdd.diskManager.file
    {
      bridge.Valid() && GoodBars(bridge.Bar(0), bridge.Bar(1))
    }

    ghost function View(): (h: Hdd)
      requires Valid()
      reads bridge.config.registers, bridge.hdd, bridge.hdd.internalBuffer, bridge.hdd.diskManager,
            bridge.hdd.diskManager.file
      ensures h.Valid()
    {
      bridge.hdd.View()
    }

    constructor (bridge: Bridge)
      requires bridge.Valid() && GoodBars(bridge.Bar(0), bridge.Bar(1))
      ensures Valid() && this.bridge == bridge
    {
      this.bridge := bridge;
    }

    method OutB(val: byte, reg: nat)
      requires Valid() && reg < 8
      modifies bridge.hdd, bridge.hdd.internalBuffer, bridge.hdd.diskManager.file
      ensures Valid() && View() == WriteByte(old(View()), COMMAND_BASE + reg, val)
    {
      hide GoodBars, WriteByte;
      var a := Access(false, reg, 1, 1, true, val);
      GoodReaches(bridge.Bar(0), bridge.Bar(1), a);
      var _ := bridge.DoAccess(a);
    }

    method OutControl(val: byte)
      requires Valid()
      modifies bridge.hdd, bridge.hdd.internalBuffer, bridge.hdd.diskManager.file
      ensures Valid() && View() == WriteByte(old(View()), CONTROL_BASE, val)
    {
      hide GoodBars, WriteByte;
      var a := Access(true, 0, 1, 1, true, val);
      GoodReaches(bridge.Bar(0), bridge.Bar(1), a);
      var _ := bridge.DoAccess(a);
    }

    method InB(reg: nat) returns (val: word)
      requires Valid() && reg < 8
      modifies bridge.hdd, bridge.hdd.internalBuffer, bridge.hdd.diskManager.file
      ensures Valid() && (val, View()) == ReadByte(old(View()), COMMAND_BASE + reg)
    {
      hide GoodBars, ReadByte;
      var a := Access(false, reg, 1, 1, false, 0);
      GoodReaches(bridge.Bar(0), bridge.Bar(1), a);
      var v := bridge.DoAccess(a);
      val := v.value;
    }

    method OutW(val: word)
      requires Valid()
      modifies bridge.hdd, bridge.hdd.internalBuffer, bridge.hdd.diskManager.file
      ensures Valid() && View() == WriteBr(old(View()), val)
    {
      hide GoodBars, WriteBr;
      var a := Access(false, 0, 2, 1, true, val);
      GoodReaches(bridge.Bar(0), bridge.Bar(1), a);
      var _ := bridge.DoAccess(a);
    }

    method InW() returns (val: word)
      requires Valid()
      modifies bridge.hdd, bridge.hdd.internalBuffer, bridge.hdd.diskManager.file
      ensures Valid() && (val, View()) == ReadBr(old(View()))
    {
      hide GoodBars, ReadBr;
      var a := Access(false, 0, 2, 1, false, 0);
      GoodReaches(bridge.Bar(0), bridge.Bar(1), a);
      var v := bridge.DoAccess(a);
      val := v.value;
    }

    method LoadAddress(lba: u32, quanti: byte)
      requires Valid()
      modifies bridge.hdd, bridge.hdd.internalBuffer, bridge.hdd.diskManager.file
      ensures Valid() && View() == old(View()).(r := Loaded(old(View()).r, lba, quanti))
    {
      hide GoodBars, ProcessCmd, DriveAndHead;
      OutB(lba % 0x100, 3);
      OutB(lba / 0x100 % 0x100, 4);
      OutB(lba / 0x1_0000 % 0x100, 5);
      OutB(DriveAndHead(lba), 6);
      OutB(quanti, 2);
    }

    /** The register writes both drivers open with. */
    method IssueCommand(lba: u32, quanti: byte, cmd: byte)
      requires Valid()
      modifies bridge.hdd, bridge.hdd.internalBuffer, bridge.hdd.diskManager.file
      ensures Valid() && View() == Commanded(old(View()), lba, quanti, cmd)
    {
      hide GoodBars, ProcessCmd, Loaded;
      LoadAddress(lba, quanti);
      OutControl(0x0a);
      OutB(cmd, 7);
    }

    /** Polls the status until data are requested; the source has no limit on the attempts. */
    method PollReady(attempts: nat) returns (ready: bool, polls: nat)
      requires Valid()
      modifies bridge.hdd, bridge.hdd.internalBuffer, bridge.hdd.diskManager.file
      ensures Valid() && View() == old(View()).(raised := false)
      ensures ready == DataRequested(old(View()).r.sts)
      ensures ready ==> polls == 1
    {
      hide GoodBars, DataRequested;
      ghost var h := View();
      var s := InB(7);
      polls := 1;
      while !DataRequested(s) && polls < attempts
        invariant Valid() && View() == h.(raised := false) && s == h.r.sts
        invariant polls > 1 ==> !DataRequested(s)
      {
        s := InB(7);
        polls := polls + 1;
      }
      ready := DataRequested(s);
    }

    /** Polls the status until the controller is not busy. */
    method PollIdle(attempts: nat) returns (idle: bool)
      requires Valid()
      modifies bridge.hdd, bridge.hdd.internalBuffer, bridge.hdd.diskManager.file
      ensures Valid() && View() == old(View()).(raised := false)
      ensures idle == !TestBit(old(View()).r.sts, BUSY)
    {
      hide GoodBars, TestBit;
      ghost var h := View();
      var s := InB(7);
      var polls := 1;
      while TestBit(s, BUSY) && polls < attempts
        invariant Valid() && View() == h.(raised := false) && s == h.r.sts
      {
        s := InB(7);
        polls := polls + 1;
      }
      idle := !TestBit(s, BUSY);
    }

    /** The inner loop of scrivisett. */
    method WriteSector(ghost lba: u32, quanti: byte, vetto: seq<word>, i: nat, ghost disk: seq<byte>)
      requires Valid() && i < quanti
      requires Writing(View(), disk, lba, quanti, vetto, i, 0)
      modifies bridge.hdd, bridge.hdd.internalBuffer, bridge.hdd.diskManager.file
      ensures Valid() && Writing(View(), disk, lba, quanti, vetto, i + 1, 0)
    {
      hide GoodBars, DiskAfter;
      for j := 0 to WORDS
        invariant Valid()
        invariant if j < WORDS then Writing(View(), disk, lba, quanti, vetto, i, j)
                  else Writing(View(), disk, lba, quanti, vetto, i + 1, 0)
      {
        WriteAdvances(View(), disk, lba, quanti, vetto, i, j);
        OutW(vetto[i * WORDS + j]);
      }
    }

    /**
     * scrivisett's first poll reads port 7, which is the disk's only if a window covers it; otherwise
     * it finds the bytes in stray, one a read.
     */
    method PollPort7(stray: seq<byte>) returns (idle: bool)
      requires Valid() && JustStarted(View()) && |stray| > 0
      modifies bridge.hdd, bridge.hdd.internalBuffer, bridge.hdd.diskManager.file
      ensures Valid() && View() == old(View())
      ensures idle == FirstPollEnds(bridge.Bar(0), bridge.Bar(1), stray)
    {
      hide GoodBars, Reached, TestBit;
      ghost var h := View();
      var s := InPort7(stray[0]);
      var k := 1;
      while TestBit(s, BUSY) && k < |stray|
        invariant Valid() && View() == h && 0 < k <= |stray|
        invariant if Port7(bridge.Bar(0), bridge.Bar(1)).Some? then !TestBit(s, BUSY)
                  else s == stray[k - 1] && forall i :: 0 <= i < k - 1 ==> TestBit(stray[i], BUSY)
      {
        s := InPort7(stray[k]);
        k := k + 1;
      }
      idle := !TestBit(s, BUSY);
    }

    method InPort7(stray: byte) returns (s: byte)
      requires Valid() && JustStarted(View())
      modifies bridge.hdd, bridge.hdd.internalBuffer, bridge.hdd.diskManager.file
      ensures Valid() && View() == old(View())
      ensures if Port7(bridge.Bar(0), bridge.Bar(1)).Some? then !TestBit(s, BUSY) else s == stray
    {
      hide GoodBars, Reached;
      FreshPort(View(), bridge.Bar(0), bridge.Bar(1));
      hide JustStarted, Perform, TestBit;
      var v := bridge.DoPort(7, 1, 1, false, 0);
      s := if v.Some? then v.value else stray;
    }

    /** scrivisett; without an end to its first poll it never gets to the command. */
    method WriteSectors(lba: u32, quanti: byte, vetto: seq<word>, stray: seq<byte>, attempts: nat)
      returns (ok: bool, polls: nat)
      requires Valid() && JustStarted(View()) && |stray| > 0 && |vetto| == WORDS * quanti
      modifies bridge.hdd, bridge.hdd.internalBuffer, bridge.hdd.diskManager.file
      ensures Valid() && ok == FirstPollEnds(old(bridge.Bar(0)), old(bridge.Bar(1)), stray)
      ensures !ok ==> View() == old(View())
      ensures ok ==>
        polls == quanti && View().disk == DiskAfter(old(View()).disk, lba % 0x1000_0000, quanti, vetto)
      ensures ok ==> View().r.sts == (if quanti == 0 then DRQ else 0) && !View().fault
    {
      hide GoodBars, Commanded, JustStarted, DiskAfter, FirstPollEnds;
      ghost var (disk, at) := (View().disk, lba % 0x1000_0000);
      StartsWriting(View(), lba, quanti, vetto);
      polls := 0;
      ok := PollPort7(stray);
      if !ok { return; }
      IssueCommand(lba, quanti, 0x30);
      ghost var start := View();
      for i := 0 to quanti
        invariant Valid() && ok && polls == i
        invariant if quanti == 0 then View() == start else Writing(View(), disk, at, quanti, vetto, i, 0)
      {
        var ready, used := PollReady(attempts);
        ok, polls := ok && ready, polls + used;
        WriteSector(at, quanti, vetto, i, disk);
      }
    }

    /** The inner loop of leggisett. */
    method ReadSector(ghost lba: u32, quanti: byte, i: nat, ghost disk: seq<byte>, ghost initial: seq<byte>)
      returns (words: seq<word>)
      requires Valid() && i < quanti && Reading(View(), disk, initial, lba, quanti, i, 0)
      modifies bridge.hdd, bridge.hdd.internalBuffer, bridge.hdd.diskManager.file
      ensures Valid() && Reading(View(), disk, initial, lba, quanti, i + 1, 0)
      ensures words == ReadBack(disk, initial, lba, quanti)[WORDS * i..WORDS * (i + 1)]
    {
      hide GoodBars, ReadBack, Sector;
      words := [];
      ghost var all := ReadBack(disk, initial, lba, quanti);
      for j := 0 to WORDS
        invariant Valid()
        invariant if j < WORDS then Reading(View(), disk, initial, lba, quanti, i, j)
                  else Reading(View(), disk, initial, lba, quanti, i + 1, 0)
        invariant words == all[WORDS * i..WORDS * i + j]
      {
        ReadAdvances(View(), disk, initial, lba, quanti, i, j);
        var w := InW();
        words := words + [w];
      }
    }

    /** leggisett. */
    method ReadSectors(lba: u32, quanti: byte, attempts: nat) returns (vetti: seq<word>, ok: bool, polls: nat)
      requires Valid() && JustStarted(View())
      modifies bridge.hdd, bridge.hdd.internalBuffer, bridge.hdd.diskManager.file
      ensures Valid() && ok && polls == quanti
      ensures View().disk == old(View()).disk
      ensures vetti == ReadBack(View().disk, old(View()).buffer, lba % 0x1000_0000, quanti)
      ensures View().r.sts == (if quanti == 0 then DRQ else 0) && !View().fault
    {
      hide GoodBars, Commanded, JustStarted, ReadBack, Reading, TestBit, DataRequested;
      ghost var (disk, initial, at) := (View().disk, View().buffer, lba % 0x1000_0000);
      StartsReading(View(), lba, quanti);
      FreshStatus(View());
      var idle := PollIdle(attempts);
      IssueCommand(lba, quanti, 0x20);
      ok, polls, vetti := idle, 0, [];
      ghost var start := View();
      for i := 0 to quanti
        invariant Valid() && ok && polls == i
        invariant if quanti == 0 then View() == start else Reading(View(), disk, initial, at, quanti, i, 0)
        invariant vetti == ReadBack(disk, initial, at, quanti)[..WORDS * i]
      {
        ReadyToRead(View(), disk, initial, at, quanti, i);
        var ready, used := PollReady(attempts);
        ok, polls := ok && ready, polls + used;
        var words := ReadSector(at, quanti, i, disk, initial);
        vetti := vetti + words;
      }
      if quanti > 0 { ReadDone(View(), disk, initial, at, quanti); }
    }
  }

  /** Where a byte read of port 7 ends up. */
  function Port7(bar0: u32, bar1: u32): Option<(word, nat)> { Reached(bar0, bar1, 7, 1, 1) }

  /** The write driver's first poll sees the busy bit clear. */
  predicate FirstPollEnds(bar0: u32, bar1: u32, stray: seq<byte>) {
    Port7(bar0, bar1).Some? || exists k :: 0 <= k < |stray| && !TestBit(stray[k], BUSY)
  }

  /** A byte read of a controller just started changes nothing and shows no busy bit. */
  lemma FreshPort(h: Hdd, bar0: u32, bar1: u32)
    requires JustStarted(h)
    ensures var at := Port7(bar0, bar1);
      at.Some? ==>
        var (n, v) := Perform(h, at.value.0, at.value.1, false, 0);
        n == h && v.Some? && v.value < 0x100 && !TestBit(v.value, BUSY)
  {
    hide Dispatch, Translate;
  }

  predicate DataRequested(s: byte) { TestBit(s, 0x08) && !TestBit(s, 0x80) }

  /** (lba >> 24 & 0x0f) | 0xe0 */
  function DriveAndHead(lba: u32): byte { lba / 0x100_0000 % 0x10 + 0xe0 }

  /** No command has run on the controller yet. */
  predicate JustStarted(h: Hdd) {
    h.Valid() && h == Fresh(h.buffer, h.disk)
  }

  function Loaded(r: Registers, lba: u32, quanti: byte): Registers {
    r.(snr := lba % 0x100, cnl := lba / 0x100 % 0x100, cnh := lba / 0x1_0000 % 0x100,
       hnd := DriveAndHead(lba), scr := quanti)
  }

  /** The registers once the address, the count and the command are in them. */
  function Addressed(r: Registers, lba: u32, quanti: byte, cmd: byte): Registers {
    Loaded(r, lba, quanti).(dcr := 2, cmd := cmd)
  }

  function Commanded(h: Hdd, lba: u32, quanti: byte, cmd: byte): (n: Hdd)
    requires h.Valid()
    ensures n.Valid()
  {
    ProcessCmd(h.(r := Addressed(h.r, lba, quanti, cmd), interruptEnabled := false, raised := false))
  }

  /** The 28 bits a driver spreads over four registers come back together. */
  lemma LbaComputed(r: Registers, lba: u32)
    requires r.snr == lba % 0x100 && r.cnl == lba / 0x100 % 0x100 && r.cnh == lba / 0x1_0000 % 0x100
    requires r.hnd == DriveAndHead(lba)
    ensures ComputeLba(r) == lba % 0x1000_0000
  {
    var q: int := lba / 0x100;
    var q2 := q / 0x100;
    var q3 := q2 / 0x100;
    var b0: int, b1, b2, top := lba % 0x100, q % 0x100, q2 % 0x100, q3 % 0x10;
    RemainderUnique(lba, 0x1_0000, q2, 0x100 * b1 + b0);
    RemainderUnique(lba, 0x100_0000, q3, 0x1_0000 * b2 + 0x100 * b1 + b0);
    var sum := top * 0x100_0000 + b2 * 0x1_0000 + b1 * 0x100 + b0;
    RemainderUnique(lba, 0x1000_0000, q3 / 0x10, sum);
    RemainderUnique(sum + 0xe * 0x1000_0000, 0x1000_0000, 0xe, sum);
  }

  lemma StartsWriting(h: Hdd, lba: u32, quanti: byte, data: seq<word>)
    requires JustStarted(h) && |data| == WORDS * quanti
    ensures var n := Commanded(h, lba, quanti, WRITE_SECTORS);
      if quanti == 0 then n.r.sts == DRQ && !n.fault && n.disk == DiskAfter(h.disk, lba % 0x1000_0000, 0, data)
      else Writing(n, h.disk, lba % 0x1000_0000, quanti, data, 0, 0)
  {
    LbaComputed(Addressed(h.r, lba, quanti, WRITE_SECTORS), lba);
    assert DiskAfter(h.disk, lba % 0x1000_0000, 0, data) == h.disk;
    hide DiskAfter, IsDisk, ComputeLba;
  }

  /** Any read command first fetches the block that the address and the count left behind point to. */
  lemma ReadFetches(h: Hdd, lba: u32, quanti: byte)
    requires h.Valid()
    ensures Commanded(h, lba, quanti, READ_SECTORS).buffer == BlockRead(h.disk, h.buffer, NextIndex(h))
  {
    hide BlockRead, IsDisk, ComputeLba, SetBit, ClearBit;
  }

  /** That block is the one asked for exactly when they already pointed there. */
  lemma ReadFetchesRight(h: Hdd, lba: u32)
    requires h.Valid()
    ensures BlockAddress(NextIndex(h)) == BLOCK * lba <==> lba < BLOCKS && NextIndex(h) % BLOCKS == lba
  {
    hide NextIndex, IsDisk;
    AddressWraps(NextIndex(h));
  }

  /** A first read command fetches block 0 and only then takes over the address. */
  lemma ReadCommanded(h: Hdd, lba: u32, quanti: byte)
    requires JustStarted(h)
    ensures Commanded(h, lba, quanti, READ_SECTORS) ==
            SetStatus(h.(r := Addressed(h.r, lba, quanti, READ_SECTORS)), DRQ).(
              buffer := BlockRead(h.disk, h.buffer, 0), current := 1, lba := lba % 0x1000_0000, total := quanti)
  {
    var r := Addressed(h.r, lba, quanti, READ_SECTORS);
    LbaComputed(r, lba);
    hide BlockRead, ComputeLba, IsDisk, Loaded;
    assert NextIndex(SetStatus(h.(r := r), DRQ)) == 0;
  }

  lemma StartsReading(h: Hdd, lba: u32, quanti: byte)
    requires JustStarted(h)
    ensures var n := Commanded(h, lba, quanti, READ_SECTORS);
      if quanti == 0 then n.r.sts == DRQ && !n.fault && n.disk == h.disk
      else Reading(n, h.disk, h.buffer, lba % 0x1000_0000, quanti, 0, 0)
  {
    ReadCommanded(h, lba, quanti);
    hide Commanded, Addressed, IsDisk, BlockRead;
  }

  /**
   * The sector count is never reset and block addresses wrap: a write command's first sector lands at its
   * address exactly when the address is below 2^23 and the count is a multiple of that.
   */
  lemma CommandLandsAt(h: Hdd, lba: u32, quanti: byte)
    requires h.Valid() && h.current < INT_END
    ensures BlockAddress(NextIndex(Commanded(h, lba, quanti, WRITE_SECTORS))) == BLOCK * lba <==>
            lba < BLOCKS && h.current % BLOCKS == 0
  {
    WriteGoesTo(h, lba, quanti);
    var c := h.current;
    if lba < BLOCKS {
      SectorGoesTo(lba, c % BLOCKS, lba);
      AddMod(lba, c);
    }
  }

  /** The block any write command starts at. */
  lemma WriteGoesTo(h: Hdd, lba: u32, quanti: byte)
    requires h.Valid() && h.current < INT_END
    ensures BlockAddress(NextIndex(Commanded(h, lba, quanti, WRITE_SECTORS))) == BLOCK * ((lba + h.current) % BLOCKS)
  {
    LbaComputed(Addressed(h.r, lba, quanti, WRITE_SECTORS), lba);
    hide ComputeLba, IsDisk, SetBit, ClearBit, BlockAddress;
    var h' := Commanded(h, lba, quanti, WRITE_SECTORS);
    assert h'.lba == lba % 0x1000_0000 && h'.current == h.current;
    AddressWraps(NextIndex(h'));
    SameBlocks(lba, h.current);
  }

  lemma SameBlocks(lba: u32, c: nat)
    ensures (lba % 0x1000_0000 + c) % 0x1_0000_0000 % BLOCKS == (lba + c) % BLOCKS
  {
  }

  lemma AddMod(a: nat, c: nat)
    ensures (a + c % BLOCKS) % BLOCKS == (a + c) % BLOCKS
  {
  }

  /** At count 0 and address 2^23 a command wraps to block 0. */
  lemma WrapsToZero(h: Hdd, quanti: byte)
    requires h.Valid() && h.current == 0
    ensures BlockAddress(NextIndex(Commanded(h, BLOCKS, quanti, WRITE_SECTORS))) == 0
  {
    WriteGoesTo(h, BLOCKS, quanti);
  }

  /** A second write on one controller starts as many sectors too far as the first one wrote. */
  lemma SecondWriteMisses(h: Hdd, disk: seq<byte>, lba: u32, n: byte, data: seq<word>, lba2: u32, n2: byte)
    requires 0 < n && Writing(h, disk, lba, n, data, n, 0)
    ensures BlockAddress(NextIndex(Commanded(h, lba2, n2, WRITE_SECTORS))) == BLOCK * ((lba2 + n) % BLOCKS)
    ensures (lba2 + n) % BLOCKS != lba2
  {
    WriteGoesTo(h, lba2, n2);
  }

  /** Between sectors the status requests data, and a status read changes nothing that matters. */
  lemma ReadyToRead(h: Hdd, disk: seq<byte>, initial: seq<byte>, lba: u32, n: nat, i: nat)
    requires Reading(h, disk, initial, lba, n, i, 0) && i < n
    ensures DataRequested(h.r.sts) && Reading(h.(raised := false), disk, initial, lba, n, i, 0)
  {
  }

  lemma ReadDone(h: Hdd, disk: seq<byte>, initial: seq<byte>, lba: u32, n: nat)
    requires Reading(h, disk, initial, lba, n, n, 0)
    ensures h.r.sts == 0 && !h.fault && h.disk == disk
  {
  }

  lemma FreshStatus(h: Hdd)
    requires JustStarted(h)
    ensures h.(raised := false) == h && !TestBit(h.r.sts, BUSY)
  {
  }

  /** Words written from block 0 on by one fresh controller come back from another on the same file. */
  method RoundTrip(config: Pci.Device, disk: DiskManager, quanti: byte, vetto: seq<word>, stray: seq<byte>)
    returns (vetti: seq<word>)
    requires config.Valid() && disk.Healthy() && config.registers != disk.file
    requires GoodBars(Pci.Bar(config.registers[..], 0), Pci.Bar(config.registers[..], 1))
    requires |stray| > 0
    requires FirstPollEnds(Pci.Bar(config.registers[..], 0), Pci.Bar(config.registers[..], 1), stray)
    requires |vetto| == WORDS * quanti && BLOCK * quanti <= disk.file.Length
    modifies disk.file
    ensures vetti == vetto
  {
    hide GoodBars, DiskAfter, ReadBack, FirstPollEnds;
    var hdd := new HardDisk(disk);
    var bridge := new Bridge(config, hdd);
    var writer := new Driver(bridge);
    ghost var before := disk.file[..];
    var ok, polls := writer.WriteSectors(0, quanti, vetto, stray, 1);
    var hdd' := new HardDisk(disk);
    var bridge' := new Bridge(config, hdd');
    var reader := new Driver(bridge');
    ReadUndoesWrite(before, reader.View().buffer, quanti, vetto);
    vetti, ok, polls := reader.ReadSectors(0, quanti, 1);
  }
}
