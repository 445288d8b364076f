/** The PCI-ATA bridge: port dispatch, relocatable windows, and the disk behind them. */
module AtaBridge {
  import opened Machine
  import opened Disk
  import Pci

  const COMMAND_BASE: word := 0x1f0
  const CONTROL_BASE: word := 0x3f6

  // ----- dispatch of a port access (kvm.cpp)

  datatype Route = ToKeyboard | ToVga | ToSerial(com: nat) | ToHostBridge | ToCommand | ToControl | Unhandled

  /** The first matching device, in the order the dispatcher tries them. */
  function Dispatch(bar0: u32, bar1: u32, port: word, size: nat, count: nat): Route {
    if size == 1 && count == 1 && (port == 0x60 || port == 0x64) then ToKeyboard
    else if size == 1 && count == 1 && (port == 0x3d4 || port == 0x3d5) then ToVga
    else if size == 1 && count == 1 && 0x3f8 <= port <= 0x3ff then ToSerial(1)
    else if size == 1 && count == 1 && 0x2f8 <= port <= 0x2ff then ToSerial(2)
    else if size == 1 && count == 1 && 0x3e8 <= port <= 0x3ef then ToSerial(3)
    else if size == 1 && count == 1 && 0x2e8 <= port <= 0x2ef then ToSerial(4)
    else if 0xcfc <= port <= 0xcff || port == 0xcf8 then ToHostBridge
    else if bar0 <= port <= bar0 + 7 then ToCommand
    else if bar1 <= port <= bar1 + 1 then ToControl
    else Unhandled
  }

  /** The bridge's translation to the legacy ports; it keeps the low 16 bits of each base. */
  function Translate(bar0: u32, bar1: u32, addr: word): word {
    var (b0, b1) := (bar0 % 0x1_0000, bar1 % 0x1_0000);
    if b0 <= addr <= b0 + 7 then addr - b0 + COMMAND_BASE
    else if b1 <= addr <= b1 + 1 then addr - b1 + CONTROL_BASE
    else addr
  }

  // ----- accesses named by window and offset

  /**
   * A driver's access to a register of the command window, or of the control window: size bytes,
   * count times for a string instruction, with the first value in val.
   */
  datatype Access = Access(control: bool, reg: nat, size: nat, count: nat, out: bool, val: u32) {
    predicate Valid() {
      reg < (if control then 2 else 8) && size in {1, 2, 4} && count > 0
    }
    function Base(bar0: u32, bar1: u32): u32 { if control then bar1 else bar0 }
    /** The legacy port of the register. */
    function Legacy(): word
      requires Valid()
    {
      (if control then CONTROL_BASE else COMMAND_BASE) + reg
    }
    function Width(): nat { ServedWidth(control, size, count) }
  }

  /** How many bytes are served: single ones and words of the command window, one byte of the control window. */
  function ServedWidth(control: bool, size: nat, count: nat): nat {
    if control then 1 else if count == 1 && size <= 2 then size else 0
  }

  /** The legacy port and the width an access at a port ends up with, None if it never reaches the disk. */
  function Reached(bar0: u32, bar1: u32, port: nat, size: nat, count: nat): Option<(word, nat)> {
    if port >= 0x1_0000 then None
    else
      var route := Dispatch(bar0, bar1, port, size, count);
      if route !in {ToCommand, ToControl} then None
      else Some((Translate(bar0, bar1, port), ServedWidth(route == ToControl, size, count)))
  }

  /** A disk access at a legacy port: the new controller state and what a served read returns. */
  function Perform(h: Hdd, addr: word, width: nat, out: bool, val: u32): (r: (Hdd, Option<word>))
    requires h.Valid()
    ensures r.0.Valid()
  {
    if width == 1 then
      if out then (WriteByte(h, addr, val % 0x100), None) else var (v, n) := ReadByte(h, addr); (n, Some(v))
    else if width == 2 then
      if out then (WriteWord(h, addr, val % 0x1_0000), None) else var (v, n) := ReadWord(h, addr); (n, Some(v))
    else (h, None)
  }

  /** An access through the dispatcher and the bridge; off the disk it changes nothing there. */
  function Routed(h: Hdd, bar0: u32, bar1: u32, a: Access): (r: (Hdd, Option<word>))
    requires h.Valid() && a.Valid()
    ensures r.0.Valid()
  {
    var at := Reached(bar0, bar1, a.Base(bar0, bar1) + a.reg, a.size, a.count);
    if at.None? then (h, None) else Perform(h, at.value.0, at.value.1, a.out, a.val)
  }

  predicate AllValid(run: seq<Access>) {
    forall i :: 0 <= i < |run| ==> run[i].Valid()
  }

  function Run(h: Hdd, bar0: u32, bar1: u32, run: seq<Access>): (r: (Hdd, seq<Option<word>>))
    requires h.Valid() && AllValid(run)
    ensures r.0.Valid()
    decreases |run|
  {
    if run == [] then (h, [])
    else
      var (n, v) := Routed(h, bar0, bar1, run[0]);
      var (n', vs) := Run(n, bar0, bar1, run[1..]);
      (n', [v] + vs)
  }

  // ----- relocation

  /** Ports the dispatcher gives to a fixed device before it looks at the disk's windows. */
  predicate FixedPort(port: nat, size: nat) {
    || port == 0xcf8 || 0xcfc <= port <= 0xcff
    || (size == 1 && (port == 0x60 || port == 0x64 || port == 0x3d4 || port == 0x3d5
                      || 0x3f8 <= port <= 0x3ff || 0x2f8 <= port <= 0x2ff
                      || 0x3e8 <= port <= 0x3ef || 0x2e8 <= port <= 0x2ef))
  }

  /** Register r of a window is a port of its own. */
  predicate Clear(base: u32, r: nat) {
    base + r < 0x1_0000 && !FixedPort(base + r, 1)
  }

  /** Both windows lie in the port space, apart from each other and from the fixed devices. */
  predicate GoodBars(bar0: u32, bar1: u32) {
    && (forall r :: 0 <= r < 8 ==> Clear(bar0, r))
    && (forall r :: 0 <= r < 2 ==> Clear(bar1, r))
    && (bar0 + 7 < bar1 || bar1 + 1 < bar0)
  }

  predicate ReachedRight(bar0: u32, bar1: u32, a: Access)
    requires a.Valid()
  {
    Reached(bar0, bar1, a.Base(bar0, bar1) + a.reg, a.size, a.count) == Some((a.Legacy(), a.Width()))
  }

  /** Every access to either window is served at its legacy port. */
  ghost predicate AllReached(bar0: u32, bar1: u32) {
    forall a: Access :: a.Valid() ==> ReachedRight(bar0, bar1, a)
  }

  lemma GoodReaches(bar0: u32, bar1: u32, a: Access)
    requires GoodBars(bar0, bar1) && a.Valid()
    ensures ReachedRight(bar0, bar1, a)
  {
    assert Clear(bar0, 7) && Clear(bar1, 1);
    assert Clear(a.Base(bar0, bar1), a.reg);
    DispatchedRight(bar0, bar1, a);
    TranslatedRight(bar0, bar1, a);
    hide Dispatch, Translate, GoodBars, Clear;
  }

  lemma DispatchedRight(bar0: u32, bar1: u32, a: Access)
    requires a.Valid() && Clear(a.Base(bar0, bar1), a.reg)
    requires bar0 + 7 < bar1 || bar1 + 1 < bar0
    ensures a.Base(bar0, bar1) + a.reg < 0x1_0000
    ensures Dispatch(bar0, bar1, a.Base(bar0, bar1) + a.reg, a.size, a.count) ==
            if a.control then ToControl else ToCommand
  {
  }

  lemma TranslatedRight(bar0: u32, bar1: u32, a: Access)
    requires a.Valid() && bar0 + 7 < 0x1_0000 && bar1 + 1 < 0x1_0000
    requires bar0 + 7 < bar1 || bar1 + 1 < bar0
    ensures Translate(bar0, bar1, a.Base(bar0, bar1) + a.reg) == a.Legacy()
  {
  }

  /** The register cannot be reached when its port is taken, missing or shadowed. */
  lemma ReachedIsClear(bar0: u32, bar1: u32, a: Access)
    requires a.Valid() && a.size == 1 && a.count == 1 && ReachedRight(bar0, bar1, a)
    ensures Clear(a.Base(bar0, bar1), a.reg)
    ensures a.control && bar0 < 0x1_0000 ==> !(bar0 <= bar1 + a.reg <= bar0 + 7)
  {
  }

  /** Exactly the good bases give the driver the whole disk. */
  lemma BarsReachDisk(bar0: u32, bar1: u32)
    ensures AllReached(bar0, bar1) <==> GoodBars(bar0, bar1)
  {
    if GoodBars(bar0, bar1) {
      forall a: Access | a.Valid() ensures ReachedRight(bar0, bar1, a) {
        GoodReaches(bar0, bar1, a);
      }
    }
    if AllReached(bar0, bar1) {
      hide Clear, Reached;
      forall r | 0 <= r < 8 ensures Clear(bar0, r) {
        ReachedIsClear(bar0, bar1, Access(false, r, 1, 1, true, 0));
      }
      forall r | 0 <= r < 2 ensures Clear(bar1, r) {
        ReachedIsClear(bar0, bar1, Access(true, r, 1, 1, true, 0));
      }
      WindowsApart(bar0, bar1);
    }
  }

  lemma WindowsApart(bar0: u32, bar1: u32)
    requires AllReached(bar0, bar1)
    ensures bar0 + 7 < bar1 || bar1 + 1 < bar0
  {
    hide Reached;
    var c0 := Access(false, 0, 1, 1, true, 0);
    var (k0, k1) := (Access(true, 0, 1, 1, true, 0), Access(true, 1, 1, 1, true, 0));
    assert c0.Valid() && k0.Valid() && k1.Valid();
    ReachedIsClear(bar0, bar1, c0);
    ReachedIsClear(bar0, bar1, k0);
    ReachedIsClear(bar0, bar1, k1);
  }

  lemma LegacyBarsAreGood()
    ensures GoodBars(COMMAND_BASE, CONTROL_BASE)
  {
  }

  /** Relocation is transparent: the same run gives the same replies and the same controller and disk. */
  lemma {:induction false} Relocation(h: Hdd, bar0: u32, bar1: u32, run: seq<Access>)
    requires h.Valid() && AllValid(run) && GoodBars(bar0, bar1)
    ensures Run(h, bar0, bar1, run) == Run(h, COMMAND_BASE, CONTROL_BASE, run)
    decreases |run|
  {
    if run != [] {
      GoodReaches(bar0, bar1, run[0]);
      LegacyBarsAreGood();
      GoodReaches(COMMAND_BASE, CONTROL_BASE, run[0]);
      hide GoodBars, Reached, Perform;
      assert Routed(h, bar0, bar1, run[0]) == Routed(h, COMMAND_BASE, CONTROL_BASE, run[0]);
      Relocation(Routed(h, bar0, bar1, run[0]).0, bar0, bar1, run[1..]);
    }
  }

  // ----- what each port is for

  /** The fixed devices have their ports whatever the disk's windows are. */
  lemma FixedRoutes(bar0: u32, bar1: u32, port: word, size: nat, count: nat)
    ensures size == 1 && count == 1 && port in {0x60, 0x64} ==> Dispatch(bar0, bar1, port, size, count) == ToKeyboard
    ensures size == 1 && count == 1 && port in {0x3d4, 0x3d5} ==> Dispatch(bar0, bar1, port, size, count) == ToVga
    ensures size == 1 && count == 1 && 0x3f8 <= port < 0x400 ==> Dispatch(bar0, bar1, port, size, count) == ToSerial(1)
    ensures size == 1 && count == 1 && 0x2f8 <= port < 0x300 ==> Dispatch(bar0, bar1, port, size, count) == ToSerial(2)
    ensures size == 1 && count == 1 && 0x3e8 <= port < 0x3f0 ==> Dispatch(bar0, bar1, port, size, count) == ToSerial(3)
    ensures size == 1 && count == 1 && 0x2e8 <= port < 0x2f0 ==> Dispatch(bar0, bar1, port, size, count) == ToSerial(4)
    ensures Pci.IsPort(port) ==> Dispatch(bar0, bar1, port, size, count) == ToHostBridge
    ensures !(bar0 <= port <= bar0 + 7) && !(bar1 <= port <= bar1 + 1)
            && !FixedPort(port, if count == 1 then size else 0) ==>
              Dispatch(bar0, bar1, port, size, count) == Unhandled
  {
  }

  /** With good bases an access of the command window is served alone and up to word width, or not at all; one of the
      control window is served as a single byte, whatever its width and count. */
  lemma ServedExactly(h: Hdd, bar0: u32, bar1: u32, a: Access)
    requires h.Valid() && a.Valid() && GoodBars(bar0, bar1)
    ensures !a.control && (a.size == 4 || a.count > 1) ==> Routed(h, bar0, bar1, a) == (h, None)
    ensures a.out && (a.control || (a.size == 1 && a.count == 1)) ==>
              Routed(h, bar0, bar1, a) == (WriteByte(h, a.Legacy(), a.val % 0x100), None)
    ensures !a.out && (a.control || (a.size == 1 && a.count == 1)) ==>
              Routed(h, bar0, bar1, a) == (ReadByte(h, a.Legacy()).1, Some(ReadByte(h, a.Legacy()).0))
    ensures !a.control && a.size == 2 && a.count == 1 ==>
              Routed(h, bar0, bar1, a) ==
              if a.out then (WriteWord(h, a.Legacy(), a.val % 0x1_0000), None)
              else (ReadWord(h, a.Legacy()).1, Some(ReadWord(h, a.Legacy()).0))
  {
    hide GoodBars, Reached, WriteByte, ReadByte, WriteWord, ReadWord;
    GoodReaches(bar0, bar1, a);
  }

  // ----- how a driver finds the disk

  /** The words and longs a driver reads from configuration space are the class and the bases. */
  lemma DriverReads(block: seq<byte>)
    requires |block| == Pci.BLOCK_SIZE
    ensures Pci.Get(block, 10, 2) == Pci.ClassCode(block) / 0x100
    ensures Pci.Get(block, 16, 4) == Pci.Bar(block, 0) && Pci.Get(block, 20, 4) == Pci.Bar(block, 1)
  {
    Pci.ClassAt(block);
  }

  /** A bridge that starts gives an IDE controller the legacy ports, where the driver finds them, and changes nothing
      else; any other device it leaves alone. */
  lemma AtaStarts(block: seq<byte>, at: nat, n: nat)
    requires |block| == Pci.BLOCK_SIZE && (at + n <= 16 || 24 <= at)
    ensures var after := Pci.Initialised(block);
      && |after| == |block| && Pci.Get(after, at, n) == Pci.Get(block, at, n)
      && if Pci.Get(block, 9, 1) == 0 && Pci.Get(block, 10, 2) == 0x0101 then
           Pci.Bar(after, 0) == 0x1f0 && Pci.Bar(after, 1) == 0x3f6 && GoodBars(Pci.Bar(after, 0), Pci.Bar(after, 1))
         else after == block
  {
    hide GoodBars, Pci.Get, Pci.Set;
    LegacyBarsAreGood();
    Pci.ClassAt(block);
    Pow256Values();
    var once := Pci.Set(block, 16, 4, 0x1f0);
    Pci.SetThenGet(block, 16, 4, 0x1f0, at, n);
    Pci.SetThenGet(once, 20, 4, 0x3f6, at, n);
    Pci.SetThenGet(once, 20, 4, 0x3f6, 16, 4);
  }

  // ----- the bridge

  class Bridge {
    const config: Pci.Device
    const hdd: HardDisk

    ghost predicate Valid()
      reads config.registers, hdd, hdd.internalBuffer, hdd.diskManager, hdd.diskManager.file
    {
      && config.Valid() && hdd.Valid()
      && config.registers != hdd.internalBuffer && config.registers != hdd.diskManager.file
    }

    ghost function Bar(i: nat): u32
      requires config.Valid()
      reads config.registers
    {
      Pci.Bar(config.registers[..], i)
    }

    constructor (config: Pci.Device, hdd: HardDisk)
      requires config.Valid() && hdd.Valid()
      requires config.registers != hdd.internalBuffer && config.registers != hdd.diskManager.file
      ensures Valid() && this.config == config && this.hdd == hdd
    {
      this.config, this.hdd := config, hdd;
    }

    /** The window the address lies in decides its legacy port; the command window is looked at first. */
    method TranslateAddr(addr: word) returns (legacy: word)
      requires Valid()
      ensures legacy == Translate(Bar(0), Bar(1), addr)
    {
      var wide0 := config.GetBar(0);
      var wide1 := config.GetBar(1);
      var bar0, bar1 := wide0 % 0x1_0000, wide1 % 0x1_0000;
      legacy := addr;
      if addr >= bar0 && addr <= bar0 + 7 {
        legacy := addr - bar0 + COMMAND_BASE;
      } else if addr >= bar1 && addr <= bar1 + 1 {
        legacy := addr - bar1 + CONTROL_BASE;
      }
    }

    /** One access of the guest, through the dispatcher. */
    method DoAccess(a: Access) returns (val: Option<word>)
      requires Valid() && a.Valid()
      modifies hdd, hdd.internalBuffer, hdd.diskManager.file
      ensures Valid() && Bar(0) == old(Bar(0)) && Bar(1) == old(Bar(1))
      ensures (hdd.View(), val) == Routed(old(hdd.View()), Bar(0), Bar(1), a)
    {
      hide Perform, Translate, Dispatch;
      var bar0 := config.GetBar(0);
      var bar1 := config.GetBar(1);
      val := DoPort(a.Base(bar0, bar1) + a.reg, a.size, a.count, a.out, a.val);
    }

    /** One access at any port. */
    method DoPort(port: nat, size: nat, count: nat, out: bool, data: u32) returns (val: Option<word>)
      requires Valid()
      modifies hdd, hdd.internalBuffer, hdd.diskManager.file
      ensures Valid() && config.registers[..] == old(config.registers[..])
      ensures var at := Reached(Bar(0), Bar(1), port, size, count);
        (hdd.View(), val) ==
        if at.None? then (old(hdd.View()), None) else Perform(old(hdd.View()), at.value.0, at.value.1, out, data)
    {
      hide Perform, Translate, Dispatch;
      var bar0 := config.GetBar(0);
      var bar1 := config.GetBar(1);
      val := None;
      if port >= 0x1_0000 { return; }
      var route := Dispatch(bar0, bar1, port, size, count);
      if route !in {ToCommand, ToControl} { return; }
      var at := TranslateAddr(port);
      val := Transfer(at, ServedWidth(route == ToControl, size, count), out, data);
    }

    method Transfer(at: word, width: nat, out: bool, data: u32) returns (val: Option<word>)
      requires Valid()
      modifies hdd, hdd.internalBuffer, hdd.diskManager.file
      ensures Valid() && config.registers[..] == old(config.registers[..])
      ensures (hdd.View(), val) == Perform(old(hdd.View()), at, width, out, data)
    {
      hide WriteByte, ReadByte, WriteWord, ReadWord;
      val := None;
      if width == 1 {
        if out {
          hdd.WriteRegByte(at, data % 0x100);
        } else {
          var v := hdd.ReadRegByte(at);
          val := Some(v);
        }
      } else if width == 2 {
        if out {
          hdd.WriteRegWord(at, data % 0x1_0000);
        } else {
          var v := hdd.ReadRegWord(at);
          val := Some(v);
        }
      }
    }
  }
}
