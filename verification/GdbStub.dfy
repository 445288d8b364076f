/** The command interpreter of the GDB stub and its bridge to the vCPU registers. */
module GdbStub {
  import opened Machine
  import opened CStrings
  import opened GdbCodec
  import opened GdbFraming

  const NUMREGS := 24
  const NUMREGBYTES := 192
  const SIGILL: byte := 4
  const SIGTERM: byte := 15
  const SIGTRAP: byte := 5

  const RBP_REGNUM := 6
  const RSP_REGNUM := 7
  const RIP_REGNUM := 16

  // ----- register cache

  /** The vCPU's general registers, named as KVM names them. */
  datatype KvmRegs = KvmRegs(
    rax: u64, rbx: u64, rcx: u64, rdx: u64, rsi: u64, rdi: u64, rsp: u64, rbp: u64,
    r8: u64, r9: u64, r10: u64, r11: u64, r12: u64, r13: u64, r14: u64, r15: u64,
    rip: u64, rflags: u64)

  /** The segment selectors the stub reports. */
  datatype Selectors = Selectors(cs: word, ss: word, ds: word, es: word, fs: word, gs: word)

  /** Entry n of a register cache seen as 24 longs over 192 bytes. */
  function Register(cache: seq<byte>, n: nat): (v: u64)
    requires |cache| == NUMREGBYTES && n < NUMREGS
  {
    Pow256Values();
    ToFromBytes(cache[8 * n..8 * n + 8]);
    FromBytes(cache[8 * n..8 * n + 8])
  }

  function Registers(cache: seq<byte>): (v: seq<u64>)
    requires |cache| == NUMREGBYTES
    ensures |v| == NUMREGS
  {
    seq(NUMREGS, n requires 0 <= n < NUMREGS => Register(cache, n))
  }

  /** What kvm_load_registers_from_gdbcache hands to the vCPU. */
  function FromCache(v: seq<u64>): KvmRegs
    requires |v| == NUMREGS
  {
    KvmRegs(rax := v[0], rbx := v[1], rcx := v[2], rdx := v[3], rsi := v[4], rdi := v[5],
            rbp := v[RBP_REGNUM], rsp := v[RSP_REGNUM],
            r8 := v[8], r9 := v[9], r10 := v[10], r11 := v[11],
            r12 := v[12], r13 := v[13], r14 := v[14], r15 := v[15],
            rip := v[RIP_REGNUM], rflags := v[17])
  }

  /** What gdb_submit_registers leaves in the cache. */
  function Submitted(r: KvmRegs, s: Selectors): (v: seq<u64>)
    ensures |v| == NUMREGS
  {
    [r.rax, r.rbx, r.rcx, r.rdx, r.rsi, r.rdi, r.rbp, r.rsp]
    + [r.r8, r.r9, r.r10, r.r11, r.r12, r.r13, r.r14, r.r15]
    + [r.rip, r.rflags, s.cs, s.ss, s.ds, s.es, s.fs, s.gs]
  }

  /** The control registers the stub keeps beside the cache. */
  datatype Control = Control(cr4: u64, cr3: u64, cr2: u64, cr0: u64, efer: u64)

  /** The n low hex digits of v, most significant first. */
  function Digits(v: nat, n: nat): (text: string)
    ensures |text| == n
  {
    if n == 0 then "" else Digits(v / 16, n - 1) + [HEXCHARS[v % 16]]
  }

  function Pow16(n: nat): nat { if n == 0 then 1 else 16 * Pow16(n - 1) }

  /** The digits denote the value they were printed from. */
  lemma {:induction false} DigitsRead(v: nat, n: nat)
    requires v < Pow16(n)
    ensures AllHex(Digits(v, n)) && HexValue(Digits(v, n)) == v
  {
    if n > 0 {
      DigitsRead(v / 16, n - 1);
      HexOfDigit(v % 16);
      var (front, text) := (Digits(v / 16, n - 1), Digits(v, n));
      assert text[..|text| - 1] == front;
    }
  }

  /** One line of the register display. */
  function Line(name: string, v: u64): (text: string)
    ensures |text| == |name| + 20
  {
    name + " 0x" + Digits(v, 16) + "\n"
  }

  /** The register display of the monitor command. */
  function Display(c: Control): (text: string)
    ensures |text| == 155
  {
    "Privileged Registers" + " (Custom command):\n"
    + Line("CR4", c.cr4) + Line("CR3", c.cr3) + Line("CR2", c.cr2) + Line("CR0", c.cr0) + Line("EFER", c.efer)
  }

  lemma LineTells(name: string, v: u64)
    ensures Told(Line(name, v), 0, name, v)
  {
    assert Pow16(8) == 0x1_0000_0000 && Pow16(16) == 0x1_0000_0000_0000_0000 by {
      assert Pow16(4) == 0x1_0000 && Pow16(12) == 0x1_0000_0000_0000;
    }
    DigitsRead(v, 16);
    hide Digits;
    var (text, q) := (Line(name, v), |name| + 3);
    var digits := Digits(v, 16);
    assert text == (name + " 0x") + digits + "\n" && |name + " 0x"| == q && |digits| == 16;
    assert text[0..q] == name + " 0x";
    assert text[q..q + 16] == digits;
    assert text[q + 16] == '\n';
  }

  /** At a fixed place the display names a register and says what it holds. */
  predicate Told(text: string, at: nat, name: string, v: u64) {
    var q := at + |name| + 3;
    && q + 17 <= |text| && text[at..q] == name + " 0x" && text[q + 16] == '\n'
    && AllHex(text[q..q + 16]) && HexValue(text[q..q + 16]) == v
  }

  /** The display is a heading and one line for each of the five control registers. */
  lemma DisplayTells(c: Control)
    ensures var text := Display(c);
      && text[..39] == "Privileged Registers" + " (Custom command):\n"
      && Told(text, 39, "CR4", c.cr4) && Told(text, 62, "CR3", c.cr3) && Told(text, 85, "CR2", c.cr2)
      && Told(text, 108, "CR0", c.cr0) && Told(text, 131, "EFER", c.efer)
  {
    LineTells("CR4", c.cr4);
    LineTells("CR3", c.cr3);
    LineTells("CR2", c.cr2);
    LineTells("CR0", c.cr0);
    LineTells("EFER", c.efer);
    hide Line, Told;
    var text := Display(c);
    TellsInside(text, 39, "CR4", c.cr4);
    TellsInside(text, 62, "CR3", c.cr3);
    TellsInside(text, 85, "CR2", c.cr2);
    TellsInside(text, 108, "CR0", c.cr0);
    TellsInside(text, 131, "EFER", c.efer);
  }

  lemma TellsInside(text: string, at: nat, name: string, v: u64)
    requires at + |name| + 20 <= |text| && text[at..at + |name| + 20] == Line(name, v)
    requires Told(Line(name, v), 0, name, v)
    ensures Told(text, at, name, v)
  {
    hide Line, AllHex, HexValue;
    var (line, k, n) := (Line(name, v), |name| + 3, |name| + 20);
    SliceOfSlice(text, at, n, 0, k);
    SliceOfSlice(text, at, n, k, k + 16);
    SliceOfSlice(text, at, n, k + 16, n);
  }

  function Bytes(text: string): (b: seq<byte>)
    ensures |b| == |text|
  {
    seq(|text|, i requires 0 <= i < |text| => text[i] as int % 256)
  }

  // ----- one command, as a function of the buffers

  datatype Core = Core(cache: seq<byte>, mem: seq<byte>, vcpu: KvmRegs, control: Control) {
    predicate Valid() { |cache| == NUMREGBYTES }
  }

  /**
   * Why the stub leaves its prompt, if it does. Overran marks the commands on which the source runs past
   * one of its buffers or past the guest memory.
   */
  datatype Stop = Continuing | Waiting | Resumed(step: bool) | Killed | Overran | Detached

  datatype Outcome = Reply(text: string) | Quit(stop: Stop)

  datatype Effect = Effect(outcome: Outcome, core: Core)

  function Says(text: string, core: Core): Effect { Effect(Reply(text), core) }

  predicate Closed(s: string) {
    |s| == BUFMAX && s[BUFMAX - 1] == '\0'
  }

  /** Where the digits starting at p end. */
  function NumEnd(s: string, p: nat): (q: nat)
    requires Closed(s) && p < BUFMAX
    ensures p <= q < BUFMAX && q == SkipHex(s, p)
  {
    assert Hex(s[BUFMAX - 1]) < 0;
    SkipHex(s, p)
  }

  /** A cache change followed by the reload of the vCPU. */
  function Reload(core: Core, cache: seq<byte>): Core
    requires |cache| == NUMREGBYTES
  {
    core.(cache := cache, vcpu := FromCache(Registers(cache)))
  }

  function WriteAll(s: string, p: nat, core: Core): Effect
    requires Closed(s) && p <= 4 && core.Valid()
  {
    Says("OK", Reload(core, Unhex(s[p..p + 2 * NUMREGBYTES])))
  }

  function ReadOne(s: string, p: nat, core: Core): Effect
    requires Closed(s) && p <= 4 && core.Valid()
  {
    var n := Num(s, p);
    if NumEnd(s, p) > p && 0 <= n < NUMREGS then Says(HexText(core.cache[8 * n..8 * n + 8]), core)
    else Says("E01", core)
  }

  function WriteOne(s: string, p: nat, core: Core): Effect
    requires Closed(s) && p <= 4 && core.Valid()
  {
    var (n, q) := (Num(s, p), NumEnd(s, p));
    if !(q > p && s[q] == '=' && 0 <= n < NUMREGS) then Says("E01", core)
    else if q + 1 + 16 > BUFMAX then Effect(Quit(Overran), core)
    else Says("OK", Reload(core, Patch(core.cache, 8 * n, Unhex(s[q + 1..q + 17]))))
  }

  function ReadMem(s: string, p: nat, core: Core): Effect
    requires Closed(s) && p <= 4 && core.Valid()
  {
    var (addr, q) := (Num(s, p), NumEnd(s, p));
    if !(q > p && s[q] == ',') then Says("E01", core)
    else
      var (length, r) := (Num(s, q + 1), NumEnd(s, q + 1));
      if r == q + 1 then Says("E01", core)
      else if length <= 0 then Says("", core)
      else if !(0 <= addr && addr + length <= |core.mem| && 2 * length < BUFMAX) then Effect(Quit(Overran), core)
      else Says(HexText(core.mem[addr..addr + length]), core)
  }

  function WriteMem(s: string, p: nat, core: Core): Effect
    requires Closed(s) && p <= 4 && core.Valid()
  {
    var (addr, q) := (Num(s, p), NumEnd(s, p));
    if !(q > p && s[q] == ',') then Says("E02", core)
    else
      var (length, r) := (Num(s, q + 1), NumEnd(s, q + 1));
      if !(r > q + 1 && s[r] == ':') then Says("E02", core)
      else if length <= 0 then Says("OK", core)
      else if !(0 <= addr && addr + length <= |core.mem| && r + 1 + 2 * length <= BUFMAX) then
        Effect(Quit(Overran), core)
      else Says("OK", core.(mem := Patch(core.mem, addr, Unhex(s[r + 1..r + 1 + 2 * length]))))
  }

  const QRCMD: string := "qRcmd,"
  const REGS: seq<byte> := [0x72, 0x65, 0x67, 0x73]

  /** The monitor command, named by four bytes in hex; names other than "regs" get an empty reply. */
  function Monitor(s: string, p: nat, core: Core): Effect
    requires Closed(s) && p <= 9
  {
    Says(if Unhex(s[p..p + 8]) == REGS then HexText(Bytes(Display(core.control))) else "", core)
  }

  function Exec(s: string, start: nat, sig: byte, core: Core): (e: Effect)
    requires Closed(s) && start <= 3 && core.Valid()
    ensures e.core.Valid() && |e.core.mem| == |core.mem|
    ensures e.outcome.Quit? ==> e.outcome.stop !in {Continuing, Waiting, Detached}
  {
    if s[start..start + 6] == QRCMD then Monitor(s, start + 6, core) else Standard(s, start, sig, core)
  }

  /** The commands named by one character. */
  function Standard(s: string, start: nat, sig: byte, core: Core): (e: Effect)
    requires Closed(s) && start <= 3 && core.Valid()
    ensures e.core.Valid() && |e.core.mem| == |core.mem|
    ensures e.outcome.Quit? ==> e.outcome.stop !in {Continuing, Waiting, Detached}
  {
    var p := start + 1;
    match s[start]
      case '?' => Says(['S', HEXCHARS[sig / 16], HEXCHARS[sig % 16]], core)
      case 'g' => Says(HexText(core.cache), core)
      case 'G' => WriteAll(s, p, core)
      case 'p' => ReadOne(s, p, core)
      case 'P' => WriteOne(s, p, core)
      case 'm' => ReadMem(s, p, core)
      case 'M' => WriteMem(s, p, core)
      case 's' => Effect(Quit(Resumed(true)), core)
      case 'c' => Effect(Quit(Resumed(false)), core)
      case 'k' => Effect(Quit(Killed), core)
      case _ => Says("", core)
  }

  lemma StandardIs(s: string, start: nat, sig: byte, core: Core)
    requires Closed(s) && start <= 3 && core.Valid() && s[start] != 'q'
    ensures Exec(s, start, sig, core) == Standard(s, start, sig, core)
  {
    hide Standard, Monitor;
    assert s[start..start + 6][0] == s[start];
  }

  /** The monitor command answers the display for "regs", nothing for another name, and changes nothing. */
  lemma MonitorAnswers(s: string, start: nat, sig: byte, core: Core, name: seq<byte>)
    requires Closed(s) && start <= 3 && core.Valid() && |name| == 4
    requires s[start..start + 14] == "qRcmd," + HexText(name)
    ensures Exec(s, start, sig, core) ==
            Says(if name == Bytes("regs") then HexText(Bytes(Display(core.control))) else "", core)
  {
    hide Standard, Display, HexText, Unhex;
    UnhexHexText(name);
    assert Bytes("regs") == REGS;
    assert s[start..start + 6] == s[start..start + 14][..6] == QRCMD;
    assert s[start + 6..start + 14] == s[start..start + 14][6..] == HexText(name);
  }

  // ----- the whole conversation during one stop

  datatype Served = Served(core: Core, buffer: string, output: string, rest: string, stop: Stop)

  /** One packet, its command and its reply. */
  function ServedOnce(core: Core, buffer: string, sig: byte, input: string): (r: Served)
    requires core.Valid() && Closed(buffer)
    ensures r.core.Valid() && Closed(r.buffer) && |r.core.mem| == |core.mem|
    ensures r.stop == Continuing ==> |r.rest| < |input|
  {
    var got := Receive(Idle(buffer), input);
    if got.packet.None? then Served(core, got.buffer, got.output, got.rest, Waiting)
    else
      var e := Exec(got.buffer, got.packet.value, sig, core);
      if e.outcome.Quit? then Served(e.core, got.buffer, got.output, got.rest, e.outcome.stop)
      else
        var sent := Transmit(e.outcome.text, got.rest);
        Served(e.core, got.buffer, got.output + sent.output, sent.rest, if sent.acked then Continuing else Waiting)
  }

  function Serve(core: Core, buffer: string, sig: byte, input: string): (r: Served)
    requires core.Valid() && Closed(buffer)
    ensures r.core.Valid() && Closed(r.buffer) && |r.core.mem| == |core.mem|
    decreases |input|
  {
    var once := ServedOnce(core, buffer, sig, input);
    if once.stop != Continuing then once
    else
      var r := Serve(once.core, once.buffer, sig, once.rest);
      r.(output := once.output + r.output)
  }

  /** One register of a stop report. */
  function Item(tag: string, n: nat, cache: seq<byte>): string
    requires |cache| == NUMREGBYTES && n < NUMREGS
  {
    tag + ":" + HexText(cache[8 * n..8 * n + 8]) + ";"
  }

  const SP_LABEL: string := [HEXCHARS[RSP_REGNUM]]
  const FP_LABEL: string := [HEXCHARS[RBP_REGNUM]]
  const PC_LABEL: string := [HEXCHARS[RIP_REGNUM / 16], HEXCHARS[RIP_REGNUM % 16]]

  /** The packet that reports a stop with SP, FP and PC. */
  function StopReply(sig: byte, cache: seq<byte>): string
    requires |cache| == NUMREGBYTES
  {
    ['T', HEXCHARS[sig / 16], HEXCHARS[sig % 16]]
    + Item(SP_LABEL, RSP_REGNUM, cache) + Item(FP_LABEL, RBP_REGNUM, cache) + Item(PC_LABEL, RIP_REGNUM, cache)
  }

  function ExitReply(sig: byte): string {
    ['X', HEXCHARS[sig / 16], HEXCHARS[sig % 16]]
  }

  function Handle(core: Core, buffer: string, sig: byte, input: string): (r: Served)
    requires core.Valid() && Closed(buffer)
  {
    if sig == SIGILL || sig == SIGTERM then
      var sent := Transmit(ExitReply(sig), input);
      Served(core, buffer, sent.output, sent.rest, if sent.acked then Detached else Waiting)
    else
      var sent := Transmit(StopReply(sig, core.cache), input);
      if !sent.acked then Served(core, buffer, sent.output, sent.rest, Waiting)
      else
        var r := Serve(core, buffer, sig, sent.rest);
        r.(output := sent.output + r.output)
  }

  // ----- the stub

  class Stub {
    const inBuffer: array<char>
    const outBuffer: array<char>
    const registers: array<byte>
    const memory: array<byte>
    var vcpu: KvmRegs
    var control: Control
    var remoteDebug: bool

    ghost predicate Valid()
      reads this, inBuffer, outBuffer, registers, memory
    {
      && inBuffer != outBuffer && registers != memory
      && outBuffer.Length == BUFMAX && registers.Length == NUMREGBYTES
      && inBuffer.Length == BUFMAX && Closed(inBuffer[..])
    }

    ghost function State(): Core
      reads this, registers, memory
    {
      Core(registers[..], memory[..], vcpu, control)
    }

    constructor (memory: array<byte>, vcpu: KvmRegs)
      ensures Valid() && fresh(inBuffer) && fresh(outBuffer) && fresh(registers)
      ensures this.memory == memory && this.vcpu == vcpu
      ensures forall i :: 0 <= i < BUFMAX ==> inBuffer[i] == '\0'
      ensures forall i :: 0 <= i < NUMREGBYTES ==> registers[i] == 0
      ensures control == Control(0, 0, 0, 0, 0)
    {
      inBuffer := new char[BUFMAX](_ => '\0');
      outBuffer := new char[BUFMAX](_ => '\0');
      registers := new byte[NUMREGBYTES](_ => 0);
      this.memory := memory;
      this.vcpu := vcpu;
      control := Control(0, 0, 0, 0, 0);
      remoteDebug := false;
    }

    method StrCpy(text: string)
      requires Valid() && |text| < BUFMAX && '\0' !in text
      modifies outBuffer
      ensures CStr(outBuffer[..], 0) == text && FindNul(outBuffer[..], 0) < BUFMAX
    {
      forall i | 0 <= i < |text| { outBuffer[i] := text[i]; }
      outBuffer[|text|] := '\0';
      CStrIs(outBuffer[..], 0, text);
    }

    method HexOut(mem: array<byte>, at: nat, count: nat)
      requires Valid() && at + count <= mem.Length && 2 * count < BUFMAX
      modifies outBuffer
      ensures CStr(outBuffer[..], 0) == HexText(mem[at..at + count]) && FindNul(outBuffer[..], 0) < BUFMAX
    {
      var end := Mem2Hex(mem, at, outBuffer, 0, count);
      HexTextIsPlain(mem[at..at + count]);
      CStrIs(outBuffer[..], 0, HexText(mem[at..at + count]));
    }

    method GetRegister(n: nat) returns (v: u64)
      requires Valid() && n < NUMREGS
      ensures v == Registers(registers[..])[n]
    {
      v := Register(registers[..], n);
    }

    /** Reloads the vCPU's general registers from the register cache. */
    method LoadRegistersFromGdbCache()
      requires Valid()
      modifies this`vcpu
      ensures State() == Reload(old(State()), registers[..])
    {
      hide Registers;
      var rax := GetRegister(0);
      var rbx := GetRegister(1);
      var rcx := GetRegister(2);
      var rdx := GetRegister(3);
      var rsi := GetRegister(4);
      var rdi := GetRegister(5);
      var rbp := GetRegister(RBP_REGNUM);
      var rsp := GetRegister(RSP_REGNUM);
      var r8 := GetRegister(8);
      var r9 := GetRegister(9);
      var r10 := GetRegister(10);
      var r11 := GetRegister(11);
      var r12 := GetRegister(12);
      var r13 := GetRegister(13);
      var r14 := GetRegister(14);
      var r15 := GetRegister(15);
      var rip := GetRegister(RIP_REGNUM);
      var rflags := GetRegister(17);
      vcpu := vcpu.(rax := rax, rbx := rbx, rcx := rcx, rdx := rdx, rsi := rsi, rdi := rdi);
      vcpu := vcpu.(rbp := rbp, rsp := rsp, rip := rip, rflags := rflags);
      vcpu := vcpu.(r8 := r8, r9 := r9, r10 := r10, r11 := r11);
      vcpu := vcpu.(r12 := r12, r13 := r13, r14 := r14, r15 := r15);
    }

    method SetRegister(n: nat, value: u64)
      requires Valid() && n < NUMREGS
      modifies registers
      ensures Registers(registers[..]) == old(Registers(registers[..]))[n := value]
    {
      hide Registers, Register, ToBytes, FromBytes;
      ghost var before := registers[..];
      var bytes := ToBytes(value, 8);
      for i := 0 to 8
        invariant forall j :: 0 <= j < i ==> registers[8 * n + j] == bytes[j]
        invariant forall j :: 0 <= j < 8 * n || 8 * n + i <= j < NUMREGBYTES ==> registers[j] == before[j]
      {
        registers[8 * n + i] := bytes[i];
      }
      assert registers[..] == Patch(before, 8 * n, bytes);
      PatchRegister(before, n, bytes);
      FromToBytes(value, 8);
      Pow256Values();
    }

    method Execute(start: nat, sig: byte) returns (reply: bool, stop: Stop)
      requires Valid() && start <= 3
      modifies outBuffer, registers, memory, this`vcpu, this`remoteDebug
      ensures Valid() && inBuffer[..] == old(inBuffer[..])
      ensures var e := Exec(inBuffer[..], start, sig, old(State()));
        && State() == e.core
        && reply == e.outcome.Reply?
        && (reply ==> CStr(outBuffer[..], 0) == e.outcome.text && FindNul(outBuffer[..], 0) < BUFMAX)
        && (!reply ==> stop == e.outcome.stop)
      ensures remoteDebug == (old(remoteDebug) != (inBuffer[start] == 'd'))
    {
      reply, stop := true, Waiting;
      StrCpy("");
      var p := start + 1;
      if inBuffer[start..start + 6] == QRCMD {
        ExecuteMonitor(start + 6);
        return;
      }
      match inBuffer[start] {
        case '?' =>
          HexOfDigit(sig / 16);
          HexOfDigit(sig % 16);
          StrCpy(['S', HEXCHARS[sig / 16], HEXCHARS[sig % 16]]);
        case 'd' =>
          remoteDebug := !remoteDebug;
        case 'g' =>
          HexOut(registers, 0, NUMREGBYTES);
        case 'G' => ExecuteWriteAll(p);
        case 'p' => ExecuteReadOne(p);
        case 'P' => reply, stop := ExecuteWriteOne(p);
        case 'm' => reply, stop := ExecuteReadMem(p);
        case 'M' => reply, stop := ExecuteWriteMem(p);
        case 's' => return false, Resumed(true);
        case 'c' => return false, Resumed(false);
        case 'k' => return false, Killed;
        case _ =>
      }
    }

    method ExecuteMonitor(p: nat)
      requires Valid() && p <= 9 && CStr(outBuffer[..], 0) == "" && FindNul(outBuffer[..], 0) < BUFMAX
      modifies outBuffer
      ensures Monitor(inBuffer[..], p, State()).outcome == Reply(CStr(outBuffer[..], 0))
      ensures FindNul(outBuffer[..], 0) < BUFMAX
    {
      hide CStr, FindNul, Display, HexText, Unhex;
      var name := new byte[4];
      Hex2Mem(inBuffer, p, name, 0, 4);
      if name[..] == REGS {
        var text := Bytes(Display(control));
        var response := new byte[|text|](i requires 0 <= i < |text| => text[i]);
        HexOut(response, 0, |text|);
        assert response[0..|text|] == text;
      }
    }

    method ExecuteWriteAll(p: nat)
      requires Valid() && p <= 4
      modifies outBuffer, registers, this`vcpu
      ensures Valid() && inBuffer[..] == old(inBuffer[..]) && FindNul(outBuffer[..], 0) < BUFMAX
      ensures WriteAll(inBuffer[..], p, old(State())) == Says(CStr(outBuffer[..], 0), State())
    {
      hide SkipHex, FindNul, Num, Registers, FromCache, Unhex, HexText, CStr;
      ghost var bytes := Unhex(inBuffer[..][p..p + 2 * NUMREGBYTES]);
      Hex2Mem(inBuffer, p, registers, 0, NUMREGBYTES);
      assert registers[..] == bytes;
      LoadRegistersFromGdbCache();
      StrCpy("OK");
    }

    method ExecuteReadOne(p: nat)
      requires Valid() && p <= 4
      modifies outBuffer
      ensures ReadOne(inBuffer[..], p, State()).outcome == Reply(CStr(outBuffer[..], 0))
      ensures FindNul(outBuffer[..], 0) < BUFMAX
    {
      hide SkipHex, FindNul, Num, Registers, FromCache, Unhex, HexText, CStr;
      var count, regno, next := HexToInt(inBuffer, p);
      if count > 0 && 0 <= regno < NUMREGS {
        HexOut(registers, 8 * regno, 8);
      } else {
        StrCpy("E01");
      }
    }

    method ExecuteWriteOne(p: nat) returns (reply: bool, stop: Stop)
      requires Valid() && p <= 4
      modifies outBuffer, registers, this`vcpu
      ensures Valid() && inBuffer[..] == old(inBuffer[..])
      ensures var e := WriteOne(inBuffer[..], p, old(State()));
        && State() == e.core
        && e.outcome == (if reply then Reply(CStr(outBuffer[..], 0)) else Quit(stop))
        && (reply ==> FindNul(outBuffer[..], 0) < BUFMAX)
    {
      hide SkipHex, FindNul, Num, Registers, FromCache, Unhex, HexText, CStr;
      reply, stop := true, Overran;
      var count, regno, next := HexToInt(inBuffer, p);
      if count > 0 && inBuffer[next] == '=' && 0 <= regno < NUMREGS {
        if next + 17 > BUFMAX { return false, Overran; }
        Hex2Mem(inBuffer, next + 1, registers, 8 * regno, 8);
        LoadRegistersFromGdbCache();
        StrCpy("OK");
      } else {
        StrCpy("E01");
      }
    }

    method ExecuteReadMem(p: nat) returns (reply: bool, stop: Stop)
      requires Valid() && p <= 4
      modifies outBuffer
      ensures Valid()
      ensures var e := ReadMem(inBuffer[..], p, State());
        && e.outcome == (if reply then Reply(CStr(outBuffer[..], 0)) else Quit(stop))
        && (reply ==> FindNul(outBuffer[..], 0) < BUFMAX)
    {
      hide SkipHex, FindNul, Num, Registers, FromCache, Unhex, HexText, CStr;
      reply, stop := true, Overran;
      var count, addr, next := HexToInt(inBuffer, p);
      if count > 0 && inBuffer[next] == ',' {
        var count', length, next' := HexToInt(inBuffer, next + 1);
        if count' > 0 {
          if length <= 0 {
            StrCpy("");
          } else if !(0 <= addr && addr + length <= memory.Length && 2 * length < BUFMAX) {
            reply := false;
          } else {
            HexOut(memory, addr, length);
          }
          return;
        }
      }
      StrCpy("E01");
    }

    method StoreMemory(p: nat, addr: nat, length: nat)
      requires Valid() && p + 2 * length <= BUFMAX && addr + length <= memory.Length
      modifies memory
      ensures Valid() && inBuffer[..] == old(inBuffer[..])
      ensures State() == old(State()).(mem := Patch(old(memory[..]), addr, Unhex(inBuffer[..][p..p + 2 * length])))
    {
      hide Unhex;
      Hex2Mem(inBuffer, p, memory, addr, length);
    }

    method ExecuteWriteMem(p: nat) returns (reply: bool, stop: Stop)
      requires Valid() && p <= 4
      modifies outBuffer, memory
      ensures Valid() && inBuffer[..] == old(inBuffer[..])
      ensures var e := WriteMem(inBuffer[..], p, old(State()));
        && State() == e.core
        && e.outcome == (if reply then Reply(CStr(outBuffer[..], 0)) else Quit(stop))
        && (reply ==> FindNul(outBuffer[..], 0) < BUFMAX)
    {
      hide SkipHex, FindNul, Num, Registers, FromCache, Unhex, HexText, CStr, Patch, Display;
      reply, stop := true, Overran;
      ghost var e := WriteMem(inBuffer[..], p, State());
      var count, addr, next := HexToInt(inBuffer, p);
      if count == 0 || inBuffer[next] != ',' {
        StrCpy("E02");
        return;
      }
      var count', length, next' := HexToInt(inBuffer, next + 1);
      if count' == 0 || inBuffer[next'] != ':' {
        StrCpy("E02");
        return;
      }
      if length > 0 {
        if !(0 <= addr && addr + length <= memory.Length && next' + 1 + 2 * length <= BUFMAX) {
          return false, Overran;
        }
        StoreMemory(next' + 1, addr, length);
      }
      assert State() == e.core;
      StrCpy("OK");
    }

    method BuildStopReply(sig: byte)
      requires Valid()
      modifies outBuffer
      ensures CStr(outBuffer[..], 0) == StopReply(sig, registers[..]) && FindNul(outBuffer[..], 0) < BUFMAX
    {
      hide Item, CStr, FindNul;
      ghost var cache := registers[..];
      outBuffer[0], outBuffer[1], outBuffer[2] := 'T', HEXCHARS[sig / 16], HEXCHARS[sig % 16];
      assert outBuffer[..3] == ['T', HEXCHARS[sig / 16], HEXCHARS[sig % 16]];
      var p := AppendItem(3, SP_LABEL, RSP_REGNUM);
      p := AppendItem(p, FP_LABEL, RBP_REGNUM);
      p := AppendItem(p, PC_LABEL, RIP_REGNUM);
      ghost var text := outBuffer[..p];
      assert text == StopReply(sig, cache);
      outBuffer[p] := '\0';
      StopReplyIsPlain(sig, cache);
      assert outBuffer[..][0..p] == text;
      CStrIs(outBuffer[..], 0, text);
    }

    method AppendItem(p: nat, tag: string, n: nat) returns (q: nat)
      requires Valid() && p + |tag| + 20 < BUFMAX && n < NUMREGS
      modifies outBuffer
      ensures q == p + |tag| + 18
      ensures outBuffer[..q] == old(outBuffer[..p]) + Item(tag, n, registers[..])
    {
      hide HexText;
      ghost var before := outBuffer[..p];
      forall i | 0 <= i < |tag| { outBuffer[p + i] := tag[i]; }
      outBuffer[p + |tag|] := ':';
      var k := p + |tag| + 1;
      assert outBuffer[..k] == before + tag + ":";
      q := Mem2Hex(registers, 8 * n, outBuffer, k, 8);
      ghost var hex := HexText(registers[8 * n..8 * n + 8]);
      assert outBuffer[..q] == outBuffer[..k] + outBuffer[k..q] == before + tag + ":" + hex;
      outBuffer[q] := ';';
      assert outBuffer[..q] == before + tag + ":" + hex;
      q := q + 1;
      assert outBuffer[..q] == before + tag + ":" + hex + ";" == before + (tag + ":" + hex + ";");
      assert registers[..][8 * n..8 * n + 8] == registers[8 * n..8 * n + 8];
      assert outBuffer[..q] == before + Item(tag, n, registers[..]);
    }

    /** The command loop; it ends when a command leaves the prompt or the client falls silent. */
    method ServeCommands(link: Link, sig: byte) returns (stop: Stop)
      requires Valid()
      modifies link, inBuffer, outBuffer, registers, memory, this`vcpu, this`remoteDebug
      ensures Valid()
      ensures var r := Serve(old(State()), old(inBuffer[..]), sig, old(link.input));
        && State() == r.core && inBuffer[..] == r.buffer && stop == r.stop
        && link.output == old(link.output) + r.output && link.input == r.rest
    {
      ghost var goal := Serve(State(), inBuffer[..], sig, link.input);
      ghost var whole := link.output + goal.output;
      while true
        invariant Valid()
        invariant var r := Serve(State(), inBuffer[..], sig, link.input);
          && goal == r.(output := goal.output) && whole == link.output + r.output
        decreases |link.input|
      {
        var again;
        ghost var before, buffer, out := State(), inBuffer[..], link.output;
        ghost var input := link.input;
        again, stop := ServeOne(link, sig);
        if !again { break; }
        Associative(out, ServedOnce(before, buffer, sig, input).output,
                    Serve(State(), inBuffer[..], sig, link.input).output);
      }
    }

    /** One packet, its command and its reply. */
    method ServeOne(link: Link, sig: byte) returns (again: bool, stop: Stop)
      requires Valid()
      modifies link, inBuffer, outBuffer, registers, memory, this`vcpu, this`remoteDebug
      ensures Valid()
      ensures var r := ServedOnce(old(State()), old(inBuffer[..]), sig, old(link.input));
        && State() == r.core && inBuffer[..] == r.buffer && stop == r.stop && again == (r.stop == Continuing)
        && link.output == old(link.output) + r.output && link.input == r.rest
    {
      hide Exec, CStr;
      var packet := GetPacket(link, inBuffer);
      if packet.None? { return false, Waiting; }
      var reply;
      reply, stop := Execute(packet.value, sig);
      if !reply { return false, stop; }
      var acked := PutPacket(link, outBuffer);
      again := acked;
      stop := if acked then Continuing else Waiting;
    }

    method HandleException(link: Link, sig: byte) returns (stop: Stop)
      requires Valid()
      modifies link, inBuffer, outBuffer, registers, memory, this`vcpu, this`remoteDebug
      ensures Valid()
      ensures var r := Handle(old(State()), old(inBuffer[..]), sig, old(link.input));
        && State() == r.core && inBuffer[..] == r.buffer && stop == r.stop
        && link.output == old(link.output) + r.output && link.input == r.rest
    {
      hide CStr, StopReply, Serve;
      if sig == SIGILL || sig == SIGTERM {
        HexOfDigit(sig / 16);
        HexOfDigit(sig % 16);
        StrCpy(ExitReply(sig));
        var acked := PutPacket(link, outBuffer);
        return if acked then Detached else Waiting;
      }
      BuildStopReply(sig);
      var acked := PutPacket(link, outBuffer);
      if !acked { return Waiting; }
      stop := ServeCommands(link, sig);
    }

    /** Copies the vCPU's registers into the cache, entry by entry, and the control registers beside it. */
    method SubmitRegisters(s: Selectors, c: Control)
      requires Valid()
      modifies registers, this`control
      ensures Registers(registers[..]) == Submitted(vcpu, s) && control == c
    {
      hide Registers, Submitted;
      var v := Submitted(vcpu, s);
      for n := 0 to NUMREGS
        invariant forall k :: 0 <= k < n ==> Registers(registers[..])[k] == v[k]
      {
        SetRegister(n, v[n]);
      }
      control := c;
    }

    /** A debug exit: refresh the cache, put the faulting pc in it, and talk to the client. */
    method HandleDebugExit(link: Link, s: Selectors, c: Control, pc: u64) returns (stop: Stop)
      requires Valid()
      modifies link, inBuffer, outBuffer, registers, memory, this`vcpu, this`control, this`remoteDebug
      ensures Valid()
      ensures exists start: Core ::
        && start.Valid() && start.mem == old(memory[..]) && start.vcpu == old(vcpu) && start.control == c
        && Registers(start.cache) == Submitted(old(vcpu), s)[RIP_REGNUM := pc]
        && var r := Handle(start, old(inBuffer[..]), 5, old(link.input));
           State() == r.core && inBuffer[..] == r.buffer && stop == r.stop
           && link.output == old(link.output) + r.output && link.input == r.rest
    {
      SubmitRegisters(s, c);
      SetRegister(RIP_REGNUM, pc);
      stop := HandleException(link, SIGTRAP);
    }
  }

  lemma ItemIsPlain(tag: string, n: nat, cache: seq<byte>)
    requires |cache| == NUMREGBYTES && n < NUMREGS
    requires forall c :: c in tag ==> c !in ['$', '#', '\0']
    ensures |Item(tag, n, cache)| == |tag| + 18
    ensures forall c :: c in Item(tag, n, cache) ==> c !in ['$', '#', '\0']
  {
    HexTextIsPlain(cache[8 * n..8 * n + 8]);
  }

  lemma StopReplyIsPlain(sig: byte, cache: seq<byte>)
    requires |cache| == NUMREGBYTES
    ensures |StopReply(sig, cache)| == 61
    ensures forall c :: c in StopReply(sig, cache) ==> c !in ['$', '#', '\0']
  {
    hide Item;
    HexOfDigit(sig / 16);
    HexOfDigit(sig % 16);
    ItemIsPlain(SP_LABEL, RSP_REGNUM, cache);
    ItemIsPlain(FP_LABEL, RBP_REGNUM, cache);
    ItemIsPlain(PC_LABEL, RIP_REGNUM, cache);
  }

  lemma PatchRegister(cache: seq<byte>, n: nat, bytes: seq<byte>)
    requires |cache| == NUMREGBYTES && n < NUMREGS && |bytes| == 8
    ensures Registers(Patch(cache, 8 * n, bytes)) == Registers(cache)[n := Register(Patch(cache, 8 * n, bytes), n)]
    ensures Register(Patch(cache, 8 * n, bytes), n) == FromBytes(bytes)
  {
    var after := Patch(cache, 8 * n, bytes);
    assert after[8 * n..8 * n + 8] == bytes;
    forall k | 0 <= k < NUMREGS && k != n ensures Register(after, k) == Register(cache, k) {
      assert after[8 * k..8 * k + 8] == cache[8 * k..8 * k + 8];
    }
  }
}
