/** A debug session against the stub refines a plain register map and byte map. */
module GdbSession {
  import opened Machine
  import opened CStrings
  import opened GdbCodec
  import opened GdbFraming
  import opened GdbReliability
  import opened GdbStub

  /** The abstract target: 24 registers and a memory. */
  datatype Target = Target(regs: seq<u64>, mem: seq<byte>)

  function Abs(core: Core): Target
    requires core.Valid()
  {
    Target(Registers(core.cache), core.mem)
  }

  /** The register and memory commands with their fields as the client spelled them. */
  datatype Packet =
    | ReadRegs
    | WriteRegs(hex: string)
    | ReadReg(num: string)
    | WriteReg(num: string, hex: string)
    | ReadMem(addr: string, len: string)
    | WriteMem(addr: string, len: string, hex: string)

  function Payload(p: Packet): string {
    match p
    case ReadRegs => "g"
    case WriteRegs(hex) => "G" + hex
    case ReadReg(num) => "p" + num
    case WriteReg(num, hex) => "P" + num + "=" + hex
    case ReadMem(addr, len) => "m" + addr + "," + len
    case WriteMem(addr, len, hex) => "M" + addr + "," + len + ":" + hex
  }

  predicate Number(text: string) {
    text != "" && AllHex(text) && HexValue(text) < 0x8000_0000
  }

  /** Fields are numbers below 2^31 and hex data of the announced size. */
  predicate Spelled(p: Packet) {
    |Payload(p)| < BUFMAX - 1 &&
    match p
    case ReadRegs => true
    case WriteRegs(hex) => AllHex(hex) && |hex| == 2 * NUMREGBYTES
    case ReadReg(num) => Number(num)
    case WriteReg(num, hex) => Number(num) && AllHex(hex) && |hex| == 16
    case ReadMem(addr, len) => Number(addr) && Number(len)
    case WriteMem(addr, len, hex) => Number(addr) && Number(len) && AllHex(hex) && |hex| == 2 * HexValue(len)
  }

  /** Memory commands stay inside the guest memory, and a read's reply fits the output buffer. */
  predicate InRange(p: Packet, memSize: nat)
    requires Spelled(p)
  {
    match p
    case ReadMem(addr, len) => HexValue(len) == 0 || (HexValue(addr) + HexValue(len) <= memSize && HexValue(len) <= 199)
    case WriteMem(addr, len, hex) => HexValue(len) == 0 || HexValue(addr) + HexValue(len) <= memSize
    case _ => true
  }

  /** The registers as the bytes of 24 little-endian longs. */
  function RegisterImage(regs: seq<u64>): seq<byte>
    requires |regs| == NUMREGS
  {
    seq(NUMREGBYTES, j requires 0 <= j < NUMREGBYTES => ToBytes(regs[j / 8], 8)[j % 8])
  }

  function Apply(t: Target, p: Packet): (Target, string)
    requires |t.regs| == NUMREGS && Spelled(p) && InRange(p, |t.mem|)
  {
    match p
    case ReadRegs => (t, HexText(RegisterImage(t.regs)))
    case WriteRegs(hex) => (t.(regs := Registers(Unhex(hex))), "OK")
    case ReadReg(num) =>
      if HexValue(num) < NUMREGS then (t, HexText(ToBytes(t.regs[HexValue(num)], 8))) else (t, "E01")
    case WriteReg(num, hex) =>
      if HexValue(num) < NUMREGS then
        Pow256Values();
        ToFromBytes(Unhex(hex));
        (t.(regs := t.regs[HexValue(num) := FromBytes(Unhex(hex))]), "OK")
      else (t, "E01")
    case ReadMem(addr, len) =>
      if HexValue(len) == 0 then (t, "")
      else (t, HexText(t.mem[HexValue(addr)..HexValue(addr) + HexValue(len)]))
    case WriteMem(addr, len, hex) =>
      if HexValue(len) == 0 then (t, "OK")
      else (t.(mem := Patch(t.mem, HexValue(addr), Unhex(hex))), "OK")
  }

  // ----- one command

  /** The buffer holds the packet's payload and its terminator. */
  predicate Holds(s: string, p: Packet)
    requires Spelled(p)
  {
    Closed(s) && s[..|Payload(p)|] == Payload(p) && s[|Payload(p)|] == '\0'
  }

  lemma Int32Small(v: nat)
    requires v < 0x8000_0000
    ensures Int32(v) == v
  {
  }

  lemma NumAt(s: string, p: nat, digits: string)
    requires Closed(s) && Number(digits) && p + |digits| < BUFMAX
    requires s[p..p + |digits|] == digits && Hex(s[p + |digits|]) < 0
    ensures NumEnd(s, p) == p + |digits| && Num(s, p) == HexValue(digits)
  {
    hide Int32;
    SkipHexUnique(s, p, p + |digits|);
    Int32Small(HexValue(digits));
  }

  /** Where the fields of a command lie. */
  lemma Layout(s: string, c: char, a: string, d: char, b: string, e: char, h: string)
    requires ([c] + a + [d] + b + [e] + h) <= s
    ensures var (q, r) := (1 + |a|, 2 + |a| + |b|);
      && |s| > r + |h|
      && s[0] == c && s[1..q] == a && s[q] == d
      && s[q + 1..r] == b && s[r] == e && s[r + 1..r + 1 + |h|] == h
  {
    var t := [c] + a + [d] + b + [e] + h;
    assert s[..|t|] == t;
    assert s[1..1 + |a|] == t[1..1 + |a|];
    assert s[2 + |a|..2 + |a| + |b|] == t[2 + |a|..2 + |a| + |b|];
    assert s[3 + |a| + |b|..|t|] == t[3 + |a| + |b|..];
  }

  lemma ImageOfRegisters(cache: seq<byte>)
    requires |cache| == NUMREGBYTES
    ensures RegisterImage(Registers(cache)) == cache
    ensures forall n :: 0 <= n < NUMREGS ==> ToBytes(Registers(cache)[n], 8) == cache[8 * n..8 * n + 8]
  {
    forall n | 0 <= n < NUMREGS ensures ToBytes(Registers(cache)[n], 8) == cache[8 * n..8 * n + 8] {
      ToFromBytes(cache[8 * n..8 * n + 8]);
    }
    forall j | 0 <= j < NUMREGBYTES ensures RegisterImage(Registers(cache))[j] == cache[j] {
      assert ToBytes(Registers(cache)[j / 8], 8) == cache[8 * (j / 8)..8 * (j / 8) + 8];
    }
  }

  predicate Refined(e: Effect, core: Core, p: Packet)
    requires core.Valid() && Spelled(p) && InRange(p, |core.mem|)
  {
    && e.core.Valid()
    && e.outcome == Reply(Apply(Abs(core), p).1)
    && Abs(e.core) == Apply(Abs(core), p).0
  }

  lemma ReadOneRefines(s: string, sig: byte, core: Core, p: Packet)
    requires p.ReadReg? && Spelled(p) && Holds(s, p) && core.Valid()
    ensures Refined(Exec(s, 0, sig, core), core, p)
  {
    var t := Payload(p);
    assert s[0] == s[..|t|][0] == 'p';
    assert s[1..1 + |p.num|] == s[..|t|][1..] == p.num;
    StandardIs(s, 0, sig, core);
    NumAt(s, 1, p.num);
    ImageOfRegisters(core.cache);
  }

  lemma WriteOneDoes(s: string, sig: byte, core: Core, n: nat, q: nat, hex: string)
    requires Closed(s) && core.Valid() && s[0] == 'P' && |hex| == 16
    requires 1 < q < BUFMAX - 17 && NumEnd(s, 1) == q && Num(s, 1) == n && s[q] == '='
    requires s[q + 1..q + 17] == hex
    ensures Standard(s, 0, sig, core) ==
            if n < NUMREGS then Says("OK", Reload(core, Patch(core.cache, 8 * n, Unhex(hex))))
            else Says("E01", core)
  {
    hide Unhex, Patch, Num, NumEnd, Reload;
  }

  lemma WriteOneRefines(s: string, sig: byte, core: Core, p: Packet)
    requires p.WriteReg? && Spelled(p) && Holds(s, p) && core.Valid()
    ensures Refined(Exec(s, 0, sig, core), core, p)
  {
    assert ['P'] + p.num + ['='] + p.hex + ['\0'] + "" == Payload(p) + ['\0'];
    Layout(s, 'P', p.num, '=', p.hex, '\0', "");
    NumAt(s, 1, p.num);
    hide HexValue, Payload, Holds, Exec, Standard, Unhex;
    var (n, q) := (HexValue(p.num), 1 + |p.num|);
    assert s[q + 1..q + 17] == p.hex;
    StandardIs(s, 0, sig, core);
    WriteOneDoes(s, sig, core, n, q, p.hex);
    if n < NUMREGS {
      PatchRegister(core.cache, n, Unhex(p.hex));
    }
  }

  lemma ReadMemDoes(s: string, sig: byte, core: Core, addr: nat, q: nat, len: nat, r: nat)
    requires Closed(s) && core.Valid() && s[0] == 'm'
    requires 1 < q < BUFMAX - 1 && NumEnd(s, 1) == q && Num(s, 1) == addr && s[q] == ','
    requires q + 1 < r < BUFMAX && NumEnd(s, q + 1) == r && Num(s, q + 1) == len
    ensures Standard(s, 0, sig, core) ==
            if len == 0 then Says("", core)
            else if addr + len <= |core.mem| && len <= 199 then Says(HexText(core.mem[addr..addr + len]), core)
            else Effect(Quit(Overran), core)
  {
    hide HexText, Num, NumEnd;
  }

  lemma ReadMemRefines(s: string, sig: byte, core: Core, p: Packet)
    requires p.ReadMem? && Spelled(p) && Holds(s, p) && core.Valid()
    ensures InRange(p, |core.mem|) ==> Refined(Exec(s, 0, sig, core), core, p)
    ensures !InRange(p, |core.mem|) ==> Exec(s, 0, sig, core).outcome == Quit(Overran)
  {
    hide HexValue, Holds, Exec, Standard, HexText, Num, NumEnd;
    ReadMemLaidOut(s, p);
    StandardIs(s, 0, sig, core);
    ReadMemDoes(s, sig, core, HexValue(p.addr), 1 + |p.addr|, HexValue(p.len), 2 + |p.addr| + |p.len|);
  }

  lemma ReadMemLaidOut(s: string, p: Packet)
    requires p.ReadMem? && Spelled(p) && Holds(s, p)
    ensures var (q, r) := (1 + |p.addr|, 2 + |p.addr| + |p.len|);
      && Closed(s) && s[0] == 'm' && 1 < q < BUFMAX - 1 && s[q] == ',' && q + 1 < r < BUFMAX
      && NumEnd(s, 1) == q && Num(s, 1) == HexValue(p.addr)
      && NumEnd(s, q + 1) == r && Num(s, q + 1) == HexValue(p.len)
  {
    assert ['m'] + p.addr + [','] + p.len + ['\0'] + "" == Payload(p) + ['\0'];
    Layout(s, 'm', p.addr, ',', p.len, '\0', "");
    NumAt(s, 1, p.addr);
    NumAt(s, 2 + |p.addr|, p.len);
  }

  lemma WriteMemDoes(s: string, sig: byte, core: Core, addr: nat, q: nat, len: nat, r: nat, hex: string)
    requires Closed(s) && core.Valid() && s[0] == 'M'
    requires 1 < q < BUFMAX - 1 && NumEnd(s, 1) == q && Num(s, 1) == addr && s[q] == ','
    requires q + 1 < r < BUFMAX && NumEnd(s, q + 1) == r && Num(s, q + 1) == len && s[r] == ':'
    requires |hex| == 2 * len && r + 1 + |hex| <= BUFMAX && s[r + 1..r + 1 + 2 * len] == hex
    ensures Standard(s, 0, sig, core) ==
            if len == 0 then Says("OK", core)
            else if addr + len <= |core.mem| then Says("OK", core.(mem := Patch(core.mem, addr, Unhex(hex))))
            else Effect(Quit(Overran), core)
  {
    hide Unhex, Patch, Num, NumEnd;
  }

  lemma WriteMemRefines(s: string, sig: byte, core: Core, p: Packet)
    requires p.WriteMem? && Spelled(p) && Holds(s, p) && core.Valid()
    ensures InRange(p, |core.mem|) ==> Refined(Exec(s, 0, sig, core), core, p)
    ensures !InRange(p, |core.mem|) ==> Exec(s, 0, sig, core).outcome == Quit(Overran)
  {
    assert ['M'] + p.addr + [','] + p.len + [':'] + p.hex == Payload(p);
    Layout(s, 'M', p.addr, ',', p.len, ':', p.hex);
    NumAt(s, 1, p.addr);
    NumAt(s, 2 + |p.addr|, p.len);
    hide HexValue, Payload, Holds, Exec, Standard, Unhex;
    StandardIs(s, 0, sig, core);
    WriteMemDoes(s, sig, core, HexValue(p.addr), 1 + |p.addr|, HexValue(p.len), 2 + |p.addr| + |p.len|, p.hex);
  }

  lemma ReadAllRefines(s: string, sig: byte, core: Core, p: Packet)
    requires p.ReadRegs? && Spelled(p) && Holds(s, p) && core.Valid()
    ensures Refined(Exec(s, 0, sig, core), core, p)
  {
    assert s[0] == s[..1][0] == 'g';
    StandardIs(s, 0, sig, core);
    ImageOfRegisters(core.cache);
    hide Exec;
  }

  lemma WriteAllRefines(s: string, sig: byte, core: Core, p: Packet)
    requires p.WriteRegs? && Spelled(p) && Holds(s, p) && core.Valid()
    ensures Refined(Exec(s, 0, sig, core), core, p)
  {
    assert s[0] == s[..385][0] == 'G';
    assert s[1..385] == s[..385][1..] == p.hex;
    StandardIs(s, 0, sig, core);
    hide Exec;
  }

  /** A command in range does exactly what the abstract target does; out of range the source overruns. */
  lemma ExecRefines(s: string, sig: byte, core: Core, p: Packet)
    requires Spelled(p) && Holds(s, p) && core.Valid()
    ensures InRange(p, |core.mem|) ==> Refined(Exec(s, 0, sig, core), core, p)
    ensures InRange(p, |core.mem|) <==> Exec(s, 0, sig, core).outcome.Reply?
  {
    hide Exec, Holds, Apply, Abs, Payload;
    match p
    case ReadRegs => ReadAllRefines(s, sig, core, p);
    case WriteRegs(hex) => WriteAllRefines(s, sig, core, p);
    case ReadReg(num) => ReadOneRefines(s, sig, core, p);
    case WriteReg(num, hex) => WriteOneRefines(s, sig, core, p);
    case ReadMem(addr, len) => ReadMemRefines(s, sig, core, p);
    case WriteMem(addr, len, hex) => WriteMemRefines(s, sig, core, p);
  }

  // ----- whole sessions

  /** One exchange: line noise, a command, and the client's answers to the reply before it accepts one. */
  datatype Exchange = Exchange(noise: string, packet: Packet, refusals: string) {
    predicate Valid(memSize: nat) {
      '$' !in noise && '+' !in refusals && Spelled(packet) && InRange(packet, memSize)
    }
    function Input(): string
    {
      noise + (Frame(Payload(packet)) + (refusals + "+"))
    }
  }

  predicate AllValid(xs: seq<Exchange>, memSize: nat) {
    forall k :: 0 <= k < |xs| ==> xs[k].Valid(memSize)
  }

  function SessionInput(xs: seq<Exchange>): string {
    if xs == [] then "" else xs[0].Input() + SessionInput(xs[1..])
  }

  /** The abstract target after the exchanges, and what the client must have received. */
  function Play(t: Target, xs: seq<Exchange>): (r: (Target, string))
    requires |t.regs| == NUMREGS && AllValid(xs, |t.mem|)
    decreases |xs|
  {
    if xs == [] then (t, "")
    else
      var (t1, reply) := Apply(t, xs[0].packet);
      var (t2, out) := Play(t1, xs[1..]);
      (t2, "+" + Repeat(Frame(reply), |xs[0].refusals| + 1) + out)
  }

  /** Text that can travel in a packet and in a C string. */
  predicate Safe(text: string) { Plain(text) && '\0' !in text }

  lemma HexIsSafe(text: string)
    requires AllHex(text)
    ensures Safe(text) && ':' !in text
  {
    forall c | c in text ensures c !in ['$', '#', ':', '\0'] {
      var i :| 0 <= i < |text| && text[i] == c;
      assert Hex(text[i]) >= 0;
    }
  }

  lemma JoinIsSafe(a: string, b: string)
    requires Safe(a) && Safe(b)
    ensures Safe(a + b)
  {
  }

  /** Two fields after a command letter. */
  lemma FieldsAreSafe(c: char, a: string, d: char, b: string)
    requires Safe(a) && Safe(b) && Safe([c]) && Safe([d])
    ensures Safe([c] + a + [d] + b)
  {
    hide Safe;
    JoinIsSafe([c], a);
    JoinIsSafe([c] + a, [d]);
    JoinIsSafe([c] + a + [d], b);
  }

  lemma PayloadIsSafe(p: Packet)
    requires Spelled(p)
    ensures Safe(Payload(p))
  {
    match p
    case ReadRegs =>
    case WriteRegs(hex) =>
      HexIsSafe(hex);
      JoinIsSafe("G", hex);
    case ReadReg(num) =>
      HexIsSafe(num);
      JoinIsSafe("p", num);
    case WriteReg(num, hex) =>
      HexIsSafe(num);
      HexIsSafe(hex);
      FieldsAreSafe('P', num, '=', hex);
    case ReadMem(addr, len) =>
      HexIsSafe(addr);
      HexIsSafe(len);
      FieldsAreSafe('m', addr, ',', len);
    case WriteMem(addr, len, hex) =>
      HexIsSafe(addr);
      HexIsSafe(len);
      HexIsSafe(hex);
      FieldsAreSafe('M', addr, ',', len);
      JoinIsSafe("M" + addr + "," + len, ":");
      JoinIsSafe("M" + addr + "," + len + ":", hex);
  }

  /** The characters of a command never frame, end or mark a packet. */
  lemma PayloadIsPlain(p: Packet)
    requires Spelled(p)
    ensures Plain(Payload(p)) && '\0' !in Payload(p) && Payload(p) != ""
    ensures |Payload(p)| > 2 ==> Payload(p)[2] != ':'
  {
    PayloadIsSafe(p);
    hide Plain;
    match p
    case ReadRegs =>
    case WriteRegs(hex) =>
      assert Hex(hex[1]) >= 0 && Payload(p)[2] == hex[1];
    case ReadReg(num) =>
      assert |num| > 1 ==> Hex(num[1]) >= 0 && Payload(p)[2] == num[1];
    case WriteReg(num, hex) =>
      assert if |num| > 1 then Hex(num[1]) >= 0 && Payload(p)[2] == num[1] else Payload(p)[2] == '=';
    case ReadMem(addr, len) =>
      assert if |addr| > 1 then Hex(addr[1]) >= 0 && Payload(p)[2] == addr[1] else Payload(p)[2] == ',';
    case WriteMem(addr, len, hex) =>
      assert if |addr| > 1 then Hex(addr[1]) >= 0 && Payload(p)[2] == addr[1] else Payload(p)[2] == ',';
  }

  /** The receiver hands a command over at index 0 provided no ':' was left at index 2. */
  lemma CommandReceived(buffer: string, noise: string, p: Packet, rest: string)
    requires Closed(buffer) && buffer[2] != ':' && '$' !in noise && Spelled(p)
    ensures var b := Loaded(buffer, Payload(p));
      && Receive(Idle(buffer), noise + (Frame(Payload(p)) + rest)) == Received(Some(0), b, "+", rest)
      && Holds(b, p) && b[2] != ':'
  {
    hide Receive, Frame, Payload;
    PayloadIsPlain(p);
    JunkSkipped(buffer, noise, Frame(Payload(p)) + rest);
    FrameReceived(Idle(buffer), Payload(p), rest);
  }

  lemma ExchangeServed(core: Core, buffer: string, sig: byte, x: Exchange, rest: string)
    returns (core': Core, buffer': string)
    requires core.Valid() && Closed(buffer) && buffer[2] != ':' && x.Valid(|core.mem|)
    ensures core'.Valid() && Closed(buffer') && buffer'[2] != ':'
    ensures var (t, reply) := Apply(Abs(core), x.packet);
      && Abs(core') == t
      && ServedOnce(core, buffer, sig, x.Input() + rest) ==
         Served(core', buffer', "+" + Repeat(Frame(reply), |x.refusals| + 1), rest, Continuing)
  {
    var p := x.packet;
    var answers := x.refusals + ("+" + rest);
    assert x.Input() + rest == x.noise + (Frame(Payload(p)) + answers);
    CommandReceived(buffer, x.noise, p, answers);
    buffer' := Loaded(buffer, Payload(p));
    ExecRefines(buffer', sig, core, p);
    hide Exec, Apply, Payload, Receive, Loaded, Transmit, Frame;
    core' := Exec(buffer', 0, sig, core).core;
    Resends(Apply(Abs(core), p).1, x.refusals, rest);
  }

  /**
   * Refinement over whole sessions: whatever the noise and however often the client refuses a reply,
   * the stub's output, registers and memory are those of the abstract target, no buffer is overrun
   * and index 2 of the input buffer never holds a stale ':'.
   */
  lemma {:induction false} SessionRefines(core: Core, buffer: string, sig: byte, xs: seq<Exchange>, rest: string)
    returns (core': Core, buffer': string)
    requires core.Valid() && Closed(buffer) && buffer[2] != ':' && AllValid(xs, |core.mem|)
    ensures core'.Valid() && Closed(buffer') && buffer'[2] != ':'
    ensures var (t, out) := Play(Abs(core), xs);
      && Abs(core') == t
      && Serve(core, buffer, sig, SessionInput(xs) + rest) ==
         (var r := Serve(core', buffer', sig, rest); r.(output := out + r.output))
    decreases |xs|
  {
    if xs == [] {
      assert SessionInput(xs) + rest == rest;
      assert "" + Serve(core, buffer, sig, rest).output == Serve(core, buffer, sig, rest).output;
      return core, buffer;
    }
    var x, more := xs[0], SessionInput(xs[1..]) + rest;
    Associative(x.Input(), SessionInput(xs[1..]), rest);
    var core1, buffer1 := ExchangeServed(core, buffer, sig, x, more);
    core', buffer' := SessionRefines(core1, buffer1, sig, xs[1..], rest);
    hide Apply, ServedOnce;
    Associative("+" + Repeat(Frame(Apply(Abs(core), x.packet).1), |x.refusals| + 1),
                Play(Abs(core1), xs[1..]).1, Serve(core', buffer', sig, rest).output);
  }

  lemma SilentClient(core: Core, buffer: string, sig: byte)
    requires core.Valid() && Closed(buffer)
    ensures Serve(core, buffer, sig, "") == Served(core, buffer, "", "", Waiting)
  {
  }

  lemma ServedToSilence(core: Core, buffer: string, sig: byte, xs: seq<Exchange>)
    returns (core': Core, buffer': string)
    requires core.Valid() && Closed(buffer) && buffer[2] != ':' && AllValid(xs, |core.mem|)
    ensures core'.Valid() && Abs(core') == Play(Abs(core), xs).0 && Closed(buffer') && buffer'[2] != ':'
    ensures Serve(core, buffer, sig, SessionInput(xs)) == Served(core', buffer', Play(Abs(core), xs).1, "", Waiting)
  {
    core', buffer' := SessionRefines(core, buffer, sig, xs, "");
    SilentClient(core', buffer', sig);
    assert SessionInput(xs) + "" == SessionInput(xs);
    assert Play(Abs(core), xs).1 + "" == Play(Abs(core), xs).1;
  }

  lemma ReportThenServe(core: Core, buffer: string, sig: byte, refusals: string, input: string)
    requires core.Valid() && Closed(buffer) && sig !in {SIGILL, SIGTERM} && '+' !in refusals
    ensures Handle(core, buffer, sig, refusals + ("+" + input)) ==
            var r := Serve(core, buffer, sig, input);
            r.(output := Repeat(Frame(StopReply(sig, core.cache)), |refusals| + 1) + r.output)
  {
    hide StopReply, Frame, ServedOnce;
    Resends(StopReply(sig, core.cache), refusals, input);
  }

  /** The same from the moment a stop is reported, for a client that then stops talking. */
  lemma StopConversation(core: Core, buffer: string, sig: byte, refusals: string, xs: seq<Exchange>)
    requires core.Valid() && Closed(buffer) && buffer[2] != ':' && AllValid(xs, |core.mem|)
    requires sig !in {SIGILL, SIGTERM} && '+' !in refusals
    ensures var r := Handle(core, buffer, sig, refusals + ("+" + SessionInput(xs)));
      && r.core.Valid() && Abs(r.core) == Play(Abs(core), xs).0
      && r.stop == Waiting && r.rest == "" && r.buffer[2] != ':'
      && r.output == Repeat(Frame(StopReply(sig, core.cache)), |refusals| + 1) + Play(Abs(core), xs).1
  {
    hide StopReply, Frame, ServedOnce, Handle, Apply, Abs;
    ReportThenServe(core, buffer, sig, refusals, SessionInput(xs));
    var core', buffer' := ServedToSilence(core, buffer, sig, xs);
  }

  // ----- the cache and the vCPU

  /** The vCPU's general registers are cache entries 0..17. */
  predicate Synced(core: Core) {
    core.Valid() && core.vcpu == FromCache(Registers(core.cache))
  }

  /** Commands that write registers; with OK as their reply they have reached the vCPU. */
  predicate WritesRegisters(s: string, start: nat, sig: byte, core: Core)
    requires Closed(s) && start <= 3 && core.Valid()
  {
    s[start] in {'G', 'P'} && Exec(s, start, sig, core).outcome == Reply("OK")
  }

  /** Whatever command arrives, well formed or not: a register write synchronises, and nothing undoes it. */
  lemma ExecSyncs(s: string, start: nat, sig: byte, core: Core)
    requires Closed(s) && start <= 3 && core.Valid()
    ensures WritesRegisters(s, start, sig, core) || Synced(core) ==> Synced(Exec(s, start, sig, core).core)
    ensures !WritesRegisters(s, start, sig, core) ==>
      var c := Exec(s, start, sig, core).core; c.cache == core.cache && c.vcpu == core.vcpu
  {
    hide FromCache, Registers, Unhex, Patch, Num, NumEnd, HexText;
  }

  /** Over any further input at all, up to the next prompt or the end of the stop. */
  lemma {:induction false} StaysSynced(core: Core, buffer: string, sig: byte, input: string)
    requires Synced(core) && Closed(buffer)
    ensures Synced(ServedOnce(core, buffer, sig, input).core)
    ensures Synced(Serve(core, buffer, sig, input).core)
    decreases |input|
  {
    hide Exec, FromCache, Registers;
    var got := Receive(Idle(buffer), input);
    if got.packet.Some? {
      ExecSyncs(got.buffer, got.packet.value, sig, core);
    }
    var once := ServedOnce(core, buffer, sig, input);
    if once.stop == Continuing {
      StaysSynced(once.core, once.buffer, sig, once.rest);
    }
  }

  /** The state at one prompt of a stop. */
  datatype Prompt = Prompt(core: Core, buffer: string, input: string) {
    predicate Valid() { core.Valid() && Closed(buffer) }

    /** The command read at this prompt is a register write that is answered with OK. */
    predicate Writes(sig: byte)
      requires Valid()
    {
      var got := Receive(Idle(buffer), input);
      got.packet.Some? && WritesRegisters(got.buffer, got.packet.value, sig, core)
    }
  }

  /** All the prompts of a stop, in order. */
  function Prompts(core: Core, buffer: string, sig: byte, input: string): (ps: seq<Prompt>)
    requires core.Valid() && Closed(buffer)
    ensures forall i :: 0 <= i < |ps| ==> ps[i].Valid()
    decreases |input|
  {
    var once := ServedOnce(core, buffer, sig, input);
    [Prompt(core, buffer, input)]
    + if once.stop == Continuing then Prompts(once.core, once.buffer, sig, once.rest) else []
  }

  /** One prompt: a register write synchronises whatever was before, and a synchronised state stays so. */
  lemma WriteSyncs(p: Prompt, sig: byte)
    requires p.Valid() && (Synced(p.core) || p.Writes(sig))
    ensures Synced(ServedOnce(p.core, p.buffer, sig, p.input).core)
  {
    hide Exec, FromCache, Registers;
    var got := Receive(Idle(p.buffer), p.input);
    if got.packet.Some? {
      ExecSyncs(got.buffer, got.packet.value, sig, p.core);
    }
  }

  /**
   * In any stop, whatever is received: once a G or P has been handled, vCPU and cache agree at every later
   * prompt, and when the stop ends.
   */
  lemma {:induction false} SyncedEverAfter(core: Core, buffer: string, sig: byte, input: string, k: nat)
    requires core.Valid() && Closed(buffer)
    requires var ps := Prompts(core, buffer, sig, input); k < |ps| && (Synced(ps[k].core) || ps[k].Writes(sig))
    ensures var ps := Prompts(core, buffer, sig, input); forall m :: k < m < |ps| ==> Synced(ps[m].core)
    ensures Synced(Serve(core, buffer, sig, input).core)
    decreases |input|
  {
    hide ServedOnce, Synced, Prompt.Writes;
    var once := ServedOnce(core, buffer, sig, input);
    if k == 0 { WriteSyncs(Prompt(core, buffer, input), sig); }
    if once.stop == Continuing {
      var (ps, rest) := (Prompts(core, buffer, sig, input), Prompts(once.core, once.buffer, sig, once.rest));
      assert forall m :: 0 < m < |ps| ==> ps[m] == rest[m - 1];
      assert rest[0] == Prompt(once.core, once.buffer, once.rest);
      SyncedEverAfter(once.core, once.buffer, sig, once.rest, if k == 0 then 0 else k - 1);
    }
  }

  /** Submitting a synchronised vCPU again leaves cache entries 0..17 as they are. */
  lemma ResubmitIsIdle(core: Core, s: Selectors)
    requires Synced(core)
    ensures Submitted(core.vcpu, s)[..18] == Registers(core.cache)[..18]
  {
  }

  /** What is submitted is what a reload gives back, whatever the selectors. */
  lemma ReloadUndoesSubmit(regs: KvmRegs, s: Selectors)
    ensures FromCache(Submitted(regs, s)) == regs
  {
  }
}
