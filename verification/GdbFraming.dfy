/** Packet framing, checksums and the acknowledge/resend loop of the GDB stub. */
module GdbFraming {
  import opened Machine
  import opened CStrings
  import opened GdbCodec

  const BUFMAX := 400

  /** The debug connection: what is still to be read, and everything written. */
  class Link {
    var input: string
    var output: string

    constructor (incoming: string)
      ensures input == incoming && output == ""
    {
      input, output := incoming, "";
    }

    /** None models a read that blocks because the client has sent nothing more. */
    method GetDebugChar() returns (r: Option<char>)
      modifies this
      ensures output == old(output)
      ensures old(input) == "" ==> r == None && input == ""
      ensures old(input) != "" ==> r == Some(old(input)[0]) && input == old(input)[1..]
    {
      if input == "" {
        r := None;
      } else {
        r := Some(input[0]);
        input := input[1..];
      }
    }

    method PutDebugChar(c: char)
      modifies this
      ensures input == old(input) && output == old(output) + [c]
    {
      output := output + [c];
    }
  }

  // ----- the receiver as a character machine

  datatype Mode = Hunting | Body | Check | LastCheck(hi: char)

  datatype Scanner = Scanner(mode: Mode, count: nat, sum: byte, buffer: string) {
    predicate Valid() {
      |buffer| == BUFMAX && count < BUFMAX - 1 && (mode == Hunting ==> count == 0 && sum == 0)
    }
  }

  function Idle(buffer: string): Scanner { Scanner(Hunting, 0, 0, buffer) }

  datatype StepResult = Scanning(next: Scanner, out: string) | Accepted(buffer: string, out: string, start: nat)

  function Step(s: Scanner, ch: char): (r: StepResult)
    requires s.Valid()
    ensures r.Scanning? ==> r.next.Valid()
    ensures r.Accepted? ==> |r.buffer| == BUFMAX
  {
    match s.mode
    case Hunting =>
      Scanning(if ch == '$' then s.(mode := Body) else s, "")
    case Body =>
      if ch == '$' then Scanning(Scanner(Body, 0, 0, s.buffer), "")
      else if ch == '#' then Scanning(s.(mode := Check, buffer := s.buffer[s.count := '\0']), "")
      else
        var b := s.buffer[s.count := ch];
        if s.count + 1 < BUFMAX - 1 then
          Scanning(Scanner(Body, s.count + 1, (s.sum + ch as int) % 256, b), "")
        else
          Scanning(Idle(b[BUFMAX - 1 := '\0']), "")
    case Check =>
      Scanning(s.(mode := LastCheck(ch)), "")
    case LastCheck(hi) =>
      if s.sum != Pack(hi, ch) then Scanning(Idle(s.buffer), "-")
      else if s.buffer[2] == ':' then Accepted(s.buffer, ['+', s.buffer[0], s.buffer[1]], 3)
      else Accepted(s.buffer, "+", 0)
  }

  /** packet is where in buffer the accepted payload starts, None while still waiting. */
  datatype Received = Received(packet: Option<nat>, buffer: string, output: string, rest: string)

  function Prefixed(out: string, r: Received): Received {
    r.(output := out + r.output)
  }

  function Receive(s: Scanner, input: string): (r: Received)
    requires s.Valid()
    ensures |r.buffer| == BUFMAX
    ensures s.buffer[BUFMAX - 1] == '\0' ==> r.buffer[BUFMAX - 1] == '\0'
    ensures r.packet.Some? ==> |r.rest| < |input| && r.packet.value in {0, 3}
    decreases |input|
  {
    if input == "" then Received(None, s.buffer, "", "")
    else match Step(s, input[0])
      case Accepted(b, out, start) => Received(Some(start), b, out, input[1..])
      case Scanning(next, out) => Prefixed(out, Receive(next, input[1..]))
  }

  lemma PrefixedTwice(a: string, b: string, r: Received)
    ensures Prefixed(a, Prefixed(b, r)) == Prefixed(a + b, r)
    ensures Prefixed("", r) == r
  {
    Associative(a, b, r.output);
  }

  lemma ReceiveOnce(s: Scanner, input: string)
    requires s.Valid()
    ensures input == "" ==> Receive(s, input) == Received(None, s.buffer, "", "")
    ensures input != "" && Step(s, input[0]).Scanning? && Step(s, input[0]).out == "" ==>
      Receive(s, input) == Receive(Step(s, input[0]).next, input[1..])
  {
    if input != "" && Step(s, input[0]).Scanning? {
      PrefixedTwice("", "", Receive(Step(s, input[0]).next, input[1..]));
    }
  }

  /** Waits for the start character, ignoring everything else. */
  method AwaitStart(link: Link, ghost buffer: string) returns (found: bool)
    requires |buffer| == BUFMAX
    modifies link
    ensures link.output == old(link.output)
    ensures !found ==> link.input == ""
    ensures found ==> |link.input| < |old(link.input)|
    ensures Receive(Idle(buffer), old(link.input)) ==
            if found then Receive(Scanner(Body, 0, 0, buffer), link.input) else Received(None, buffer, "", "")
  {
    var c := link.GetDebugChar();
    while c.Some? && c.value != '$'
      invariant link.output == old(link.output)
      invariant c.None? ==> link.input == "" && Receive(Idle(buffer), old(link.input)) == Received(None, buffer, "", "")
      invariant c.Some? ==> |link.input| < |old(link.input)|
      invariant c.Some? ==> Receive(Idle(buffer), old(link.input)) ==
                            Prefixed("", Receive(Step(Idle(buffer), c.value).next, link.input))
      decreases |link.input|, c.Some?
    {
      PrefixedTwice("", "", Receive(Idle(buffer), link.input));
      c := link.GetDebugChar();
    }
    if c.Some? {
      PrefixedTwice("", "", Receive(Scanner(Body, 0, 0, buffer), link.input));
    }
    found := c.Some?;
  }

  datatype BodyEnd = Blocked | Overflow | Complete(checksum: byte)

  /** Stores characters up to '#'; a new '$' starts over, a full buffer gives up. */
  method ReadBody(link: Link, buffer: array<char>) returns (end: BodyEnd)
    requires buffer.Length == BUFMAX
    modifies link, buffer
    ensures link.output == old(link.output)
    ensures |link.input| <= |old(link.input)|
    ensures end.Blocked? ==> link.input == ""
    ensures var r := Receive(Scanner(Body, 0, 0, old(buffer[..])), old(link.input));
      match end
      case Blocked => r == Received(None, buffer[..], "", "")
      case Overflow => r == Receive(Idle(buffer[..]), link.input)
      case Complete(checksum) =>
        exists count: nat :: count < BUFMAX - 1 && r == Receive(Scanner(Check, count, checksum, buffer[..]), link.input)
  {
    hide Receive;
    ghost var goal := Receive(Scanner(Body, 0, 0, buffer[..]), link.input);
    var checksum: byte, count := 0, 0;
    while count < BUFMAX - 1
      invariant count <= BUFMAX - 1
      invariant link.output == old(link.output) && |link.input| <= |old(link.input)|
      invariant count < BUFMAX - 1 ==> goal == Receive(Scanner(Body, count, checksum, buffer[..]), link.input)
      invariant count == BUFMAX - 1 ==> goal == Receive(Idle(buffer[..][BUFMAX - 1 := '\0']), link.input)
      decreases |link.input|, BUFMAX - count
    {
      ghost var s := Scanner(Body, count, checksum, buffer[..]);
      ReceiveOnce(s, link.input);
      var c := link.GetDebugChar();
      if c.None? { return Blocked; }
      var ch := c.value;
      ghost var next := Step(s, ch).next;
      if ch == '$' {
        checksum, count := 0, 0;
      } else if ch == '#' {
        buffer[count] := '\0';
        assert buffer[..] == next.buffer;
        return Complete(checksum);
      } else {
        checksum := (checksum + ch as int) % 256;
        buffer[count] := ch;
        assert buffer[..] == s.buffer[count := ch];
        count := count + 1;
      }
    }
    ghost var before := buffer[..];
    buffer[count] := '\0';
    assert buffer[..] == before[BUFMAX - 1 := '\0'];
    end := Overflow;
  }

  /** Reads the two checksum digits and answers; packet is where an accepted payload starts. */
  method ReadChecksum(link: Link, buffer: array<char>, checksum: byte, ghost count: nat)
    returns (blocked: bool, packet: Option<nat>, ghost out: string)
    requires buffer.Length == BUFMAX && count < BUFMAX - 1
    modifies link
    ensures |link.input| <= |old(link.input)|
    ensures blocked ==> packet == None && link.input == ""
    ensures link.output == old(link.output) + out
    ensures Receive(Scanner(Check, count, checksum, buffer[..]), old(link.input)) ==
            if blocked || packet.Some? then Received(packet, buffer[..], out, link.input)
              else Prefixed(out, Receive(Idle(buffer[..]), link.input))
  {
    var hi := link.GetDebugChar();
    if hi.None? { return true, None, ""; }
    ghost var s := Scanner(LastCheck(hi.value), count, checksum, buffer[..]);
    PrefixedTwice("", "", Receive(s, link.input));
    var lo := link.GetDebugChar();
    if lo.None? { return true, None, ""; }
    blocked, packet, out := false, None, Step(s, lo.value).out;
    var xmitcsum := (Hex(hi.value) * 16 + Hex(lo.value)) % 256;
    if checksum != xmitcsum {
      link.PutDebugChar('-');
    } else {
      link.PutDebugChar('+');
      packet := Some(0);
      if buffer[2] == ':' {
        link.PutDebugChar(buffer[0]);
        link.PutDebugChar(buffer[1]);
        packet := Some(3);
      }
    }
  }

  /** One turn of the receiver's outer loop: one start character, and what follows it. */
  method ReceiveOne(link: Link, buffer: array<char>) returns (again: bool, packet: Option<nat>, ghost out: string)
    requires buffer.Length == BUFMAX
    modifies link, buffer
    ensures link.output == old(link.output) + out
    ensures again ==> |link.input| < |old(link.input)|
    ensures Receive(Idle(old(buffer[..])), old(link.input)) ==
            if again then Prefixed(out, Receive(Idle(buffer[..]), link.input))
            else Received(packet, buffer[..], out, link.input)
  {
    again, packet, out := false, None, "";
    var found := AwaitStart(link, buffer[..]);
    if !found { return; }
    var end := ReadBody(link, buffer);
    if end.Overflow? {
      PrefixedTwice("", "", Receive(Idle(buffer[..]), link.input));
      again := true;
    } else if end.Complete? {
      ghost var count: nat :| count < BUFMAX - 1
        && Receive(Idle(old(buffer[..])), old(link.input)) ==
           Receive(Scanner(Check, count, end.checksum, buffer[..]), link.input);
      var blocked;
      blocked, packet, out := ReadChecksum(link, buffer, end.checksum, count);
      again := !blocked && packet.None?;
    }
  }

  method GetPacket(link: Link, buffer: array<char>) returns (packet: Option<nat>)
    requires buffer.Length == BUFMAX
    modifies link, buffer
    ensures var r := Receive(Idle(old(buffer[..])), old(link.input));
      && packet == r.packet && buffer[..] == r.buffer
      && link.input == r.rest && link.output == old(link.output) + r.output
  {
    ghost var goal := Receive(Idle(buffer[..]), link.input);
    ghost var whole := link.output + goal.output;
    while true
      invariant var r := Receive(Idle(buffer[..]), link.input);
        && goal.packet == r.packet && goal.buffer == r.buffer && goal.rest == r.rest
        && whole == link.output + r.output
      decreases |link.input|
    {
      ghost var before := link.output;
      var again;
      ghost var out;
      again, packet, out := ReceiveOne(link, buffer);
      if !again { break; }
      Associative(before, out, Receive(Idle(buffer[..]), link.input).output);
    }
  }

  // ----- the sender

  function Total(text: string): nat {
    if text == "" then 0 else Total(text[..|text| - 1]) + text[|text| - 1] as int
  }

  function Checksum(text: string): byte { Total(text) % 256 }

  function Frame(text: string): string {
    "$" + text + "#" + [HEXCHARS[Checksum(text) / 16], HEXCHARS[Checksum(text) % 16]]
  }

  datatype Sent = Sent(output: string, rest: string, acked: bool)

  /** The sender against the answers in input: one copy, and another for each answer that is not '+'. */
  function Transmit(text: string, input: string): (r: Sent)
    ensures |r.rest| <= |input|
    decreases |input|
  {
    if input == "" then Sent(Frame(text), "", false)
    else if input[0] == '+' then Sent(Frame(text), input[1..], true)
    else
      var r := Transmit(text, input[1..]);
      r.(output := Frame(text) + r.output)
  }

  lemma ChecksumStart()
    ensures Checksum("") == 0
  {
  }

  lemma ChecksumStep(text: string, k: nat)
    requires k < |text|
    ensures Checksum(text[..k + 1]) == (Checksum(text[..k]) + text[k] as int) % 256
    ensures text[..k + 1] == text[..k] + [text[k]]
  {
    assert text[..k + 1][..k] == text[..k];
  }

  method SendFrame(link: Link, buffer: array<char>)
    requires FindNul(buffer[..], 0) < buffer.Length
    modifies link
    ensures link.input == old(link.input)
    ensures link.output == old(link.output) + Frame(CStr(buffer[..], 0))
  {
    hide FindNul, Checksum;
    ghost var text := CStr(buffer[..], 0);
    link.PutDebugChar('$');
    var checksum: byte, count := 0, 0;
    ChecksumStart();
    while buffer[count] != '\0'
      invariant count <= |text|
      invariant checksum == Checksum(text[..count])
      invariant link.input == old(link.input)
      invariant link.output == old(link.output) + ("$" + text[..count])
      decreases |text| - count
    {
      link.PutDebugChar(buffer[count]);
      ChecksumStep(text, count);
      checksum := (checksum + buffer[count] as int) % 256;
      count := count + 1;
    }
    assert text[..count] == text;
    link.PutDebugChar('#');
    link.PutDebugChar(HEXCHARS[checksum / 16]);
    link.PutDebugChar(HEXCHARS[checksum % 16]);
    assert link.output == old(link.output) + Frame(text);
  }

  method PutPacket(link: Link, buffer: array<char>) returns (acked: bool)
    requires FindNul(buffer[..], 0) < buffer.Length
    modifies link
    ensures var r := Transmit(CStr(buffer[..], 0), old(link.input));
      link.output == old(link.output) + r.output && link.input == r.rest && acked == r.acked
  {
    ghost var text := CStr(buffer[..], 0);
    ghost var goal := Transmit(text, link.input);
    ghost var whole := link.output + goal.output;
    while true
      invariant buffer[..] == old(buffer[..])
      invariant var r := Transmit(text, link.input);
        link.output + r.output == whole && r.rest == goal.rest && r.acked == goal.acked
      decreases |link.input|
    {
      if link.input != "" {
        Associative(link.output, Frame(text), Transmit(text, link.input[1..]).output);
      }
      SendFrame(link, buffer);
      var answer := link.GetDebugChar();
      acked := answer == Some('+');
      if answer.None? || acked { break; }
    }
  }
}
