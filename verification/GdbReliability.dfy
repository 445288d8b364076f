/** What framing and acknowledgements achieve: resynchronisation, round trip, recovery from damage. */
module GdbReliability {
  import opened Machine
  import opened CStrings
  import opened GdbCodec
  import opened GdbFraming

  /** Characters that can travel inside a packet body. */
  predicate Plain(body: string) {
    '$' !in body && '#' !in body
  }

  /** The buffer after a body was stored at its start and terminated. */
  function Loaded(buffer: string, body: string): (b: string)
    requires |buffer| == BUFMAX && |body| < BUFMAX - 1
    ensures |b| == BUFMAX
  {
    body + ['\0'] + buffer[|body| + 1..]
  }

  function Stored(buffer: string, body: string): (b: string)
    requires |body| <= |buffer|
    ensures |b| == |buffer|
  {
    body + buffer[|body|..]
  }

  lemma StepOnce(s: Scanner, ch: char, rest: string)
    requires s.Valid()
    ensures var t := Step(s, ch);
      Receive(s, [ch] + rest) ==
      if t.Accepted? then Received(Some(t.start), t.buffer, t.out, rest) else Prefixed(t.out, Receive(t.next, rest))
    ensures Step(s, ch).Scanning? && Step(s, ch).out == "" ==>
      Receive(s, [ch] + rest) == Receive(Step(s, ch).next, rest)
  {
    assert ([ch] + rest)[1..] == rest;
    if Step(s, ch).Scanning? {
      PrefixedTwice("", "", Receive(Step(s, ch).next, rest));
    }
  }

  lemma StoreNext(buffer: string, body: string, ch: char)
    requires |body| < |buffer|
    ensures Stored(buffer, body)[|body| := ch] == Stored(buffer, body + [ch])
    ensures Checksum(body + [ch]) == (Checksum(body) + ch as int) % 256
  {
    assert (body + [ch])[..|body|] == body;
  }

  /** Scanning a body stores it and sums it. */
  lemma {:induction false} BodyScan(buffer: string, body: string, rest: string)
    requires |buffer| == BUFMAX && |body| < BUFMAX - 1 && Plain(body)
    ensures Receive(Scanner(Body, 0, 0, buffer), body + rest) ==
            Receive(Scanner(Body, |body|, Checksum(body), Stored(buffer, body)), rest)
    decreases |body|
  {
    hide Receive, Prefixed, Hex;
    if body == "" {
      assert body + rest == rest && Stored(buffer, body) == buffer;
    } else {
      var (init, last) := (body[..|body| - 1], body[|body| - 1]);
      assert body == init + [last];
      Associative(init, [last], rest);
      BodyScan(buffer, init, [last] + rest);
      var s := Scanner(Body, |init|, Checksum(init), Stored(buffer, init));
      hide Total, Checksum, Stored;
      StoreNext(buffer, init, last);
      StepOnce(s, last, rest);
    }
  }

  /** The answer to an accepted buffer, and where its payload starts. */
  function Answer(b: string): (string, nat)
    requires |b| == BUFMAX
  {
    if b[2] == ':' then (['+', b[0], b[1]], 3) else ("+", 0)
  }

  /** Any framed copy, whatever its checksum digits say, arriving in mid-hunt or mid-body. */
  lemma CopyReceived(s: Scanner, body: string, hi: char, lo: char, rest: string)
    requires s.Valid() && s.mode in {Hunting, Body}
    requires |body| < BUFMAX - 1 && Plain(body)
    ensures var b := Loaded(s.buffer, body);
      Receive(s, "$" + body + "#" + [hi, lo] + rest) ==
      if Checksum(body) == Pack(hi, lo) then Received(Some(Answer(b).1), b, Answer(b).0, rest)
      else Prefixed("-", Receive(Idle(b), rest))
  {
    hide Receive, Total, Hex;
    var b := Loaded(s.buffer, body);
    var tail := [lo] + rest;
    assert "$" + body + "#" + [hi, lo] + rest == ['$'] + (body + (['#'] + ([hi] + tail)));
    StepOnce(s, '$', body + (['#'] + ([hi] + tail)));
    BodyScan(s.buffer, body, ['#'] + ([hi] + tail));
    var s1 := Scanner(Body, |body|, Checksum(body), Stored(s.buffer, body));
    StepOnce(s1, '#', [hi] + tail);
    assert s1.buffer[|body| := '\0'] == b;
    StepOnce(Scanner(Check, |body|, Checksum(body), b), hi, tail);
    StepOnce(Scanner(LastCheck(hi), |body|, Checksum(body), b), lo, rest);
  }

  lemma FrameDigits(text: string)
    ensures Pack(HEXCHARS[Checksum(text) / 16], HEXCHARS[Checksum(text) % 16]) == Checksum(text)
  {
    PackDigits(Checksum(text));
  }

  /** A clean frame is accepted exactly as sent; only a ':' left or sent at index 2 moves its start. */
  lemma FrameReceived(s: Scanner, body: string, rest: string)
    requires s.Valid() && s.mode in {Hunting, Body}
    requires |body| < BUFMAX - 1 && Plain(body)
    ensures var b := Loaded(s.buffer, body);
      Receive(s, Frame(body) + rest) == Received(Some(Answer(b).1), b, Answer(b).0, rest)
  {
    FrameDigits(body);
    CopyReceived(s, body, HEXCHARS[Checksum(body) / 16], HEXCHARS[Checksum(body) % 16], rest);
  }

  /** Without '$' nothing is even stored. */
  lemma {:induction false} JunkSkipped(buffer: string, junk: string, rest: string)
    requires |buffer| == BUFMAX && '$' !in junk
    ensures Receive(Idle(buffer), junk + rest) == Receive(Idle(buffer), rest)
    decreases |junk|
  {
    hide Receive;
    if junk == "" {
      assert junk + rest == rest;
    } else {
      assert junk + rest == [junk[0]] + (junk[1..] + rest);
      StepOnce(Idle(buffer), junk[0], junk[1..] + rest);
      JunkSkipped(buffer, junk[1..], rest);
    }
  }

  /** A fragment without '#', of any length, produces no answer and leaves the scanner open to a '$'. */
  lemma {:induction false} FragmentSkipped(s: Scanner, fragment: string, rest: string) returns (t: Scanner)
    requires s.Valid() && s.mode in {Hunting, Body} && '#' !in fragment
    ensures t.Valid() && t.mode in {Hunting, Body}
    ensures Receive(s, fragment + rest) == Receive(t, rest)
    decreases |fragment|
  {
    hide Receive;
    if fragment == "" {
      assert fragment + rest == rest;
      t := s;
    } else {
      assert fragment + rest == [fragment[0]] + (fragment[1..] + rest);
      StepOnce(s, fragment[0], fragment[1..] + rest);
      t := FragmentSkipped(Step(s, fragment[0]).next, fragment[1..], rest);
    }
  }

  /** A body of 399 characters or more is given up: nothing is answered until the next '$'. */
  lemma OverlongIgnored(buffer: string, body: string, rest: string) returns (b: string)
    requires |buffer| == BUFMAX && |body| == 399 && Plain(body)
    ensures |b| == BUFMAX && Receive(Idle(buffer), "$" + body + rest) == Receive(Idle(b), rest)
  {
    hide Receive, Total;
    var (init, last) := (body[..398], body[398]);
    assert body == init + [last];
    assert "$" + body + rest == ['$'] + (init + ([last] + rest));
    StepOnce(Idle(buffer), '$', init + ([last] + rest));
    BodyScan(buffer, init, [last] + rest);
    var s := Scanner(Body, 398, Checksum(init), Stored(buffer, init));
    StepOnce(s, last, rest);
    b := Step(s, last).next.buffer;
  }

  /** Payloads that reach the interpreter unchanged whatever was in the buffer before. */
  predicate Sendable(payload: string) {
    2 <= |payload| <= 398 && Plain(payload) && '\0' !in payload && (|payload| > 2 ==> payload[2] != ':')
  }

  /** Framing round trip with resynchronisation. */
  lemma RoundTrip(buffer: string, junk: string, fragment: Option<string>, payload: string, rest: string)
    requires |buffer| == BUFMAX && '$' !in junk
    requires fragment.Some? ==> '#' !in fragment.value
    requires Sendable(payload)
    ensures var aborted := if fragment.Some? then "$" + fragment.value else "";
      var r := Receive(Idle(buffer), junk + (aborted + (Frame(payload) + rest)));
      r.packet == Some(0) && CStr(r.buffer, 0) == payload && r.output == "+" && r.rest == rest
  {
    hide Receive, Frame, CStr;
    var frame := Frame(payload) + rest;
    var aborted := if fragment.Some? then "$" + fragment.value else "";
    JunkSkipped(buffer, junk, aborted + frame);
    var s := Idle(buffer);
    if fragment.Some? {
      s := FragmentSkipped(s, "$" + fragment.value, frame);
    } else {
      assert aborted + frame == frame;
    }
    FrameReceived(s, payload, rest);
    CStrIs(Loaded(s.buffer, payload), 0, payload);
  }

  // ----- stop and wait

  /** One transmission as the wire delivered it: body characters and two checksum digits. */
  datatype Copy = Copy(body: string, hi: char, lo: char) {
    predicate Damaged() {
      Plain(body) && |body| < BUFMAX - 1 && Checksum(body) != Pack(hi, lo)
    }
    function Wire(): string { "$" + body + "#" + [hi, lo] }
  }

  /** The copy of payload's frame in which character i arrived as c. */
  function Garbled(payload: string, i: nat, c: char): Copy
    requires i < |payload|
  {
    Copy(payload[i := c], HEXCHARS[Checksum(payload) / 16], HEXCHARS[Checksum(payload) % 16])
  }

  lemma {:induction false} TotalUpdate(text: string, i: nat, c: char)
    requires i < |text|
    ensures Total(text[i := c]) == Total(text) - text[i] as int + c as int
  {
    var n := |text| - 1;
    if i < n {
      TotalUpdate(text[..n], i, c);
      assert text[i := c][..n] == text[..n][i := c];
    } else {
      assert text[i := c][..n] == text[..n];
    }
  }

  /** One wrong 8-bit character always breaks the checksum. */
  lemma GarbledIsDamaged(payload: string, i: nat, c: char)
    requires Plain(payload) && i < |payload| < BUFMAX - 1
    requires c != payload[i] && c !in ['$', '#'] && c as int < 256 && payload[i] as int < 256
    ensures Garbled(payload, i, c).Damaged()
  {
    TotalUpdate(payload, i, c);
    FrameDigits(payload);
    var d := c as int - payload[i] as int;
    assert d != 0 && -256 < d < 256;
    assert (Total(payload) + d) % 256 != Total(payload) % 256;
  }

  function Stream(copies: seq<Copy>): string {
    if copies == [] then "" else copies[0].Wire() + Stream(copies[1..])
  }

  function Repeat(text: string, n: nat): string {
    if n == 0 then "" else text + Repeat(text, n - 1)
  }

  /** The receiver rejects each damaged copy with '-' and accepts the clean one. */
  lemma {:induction false} RejectsThenAccepts(buffer: string, copies: seq<Copy>, payload: string, rest: string)
    returns (last: string)
    requires |buffer| == BUFMAX && Sendable(payload)
    requires forall k :: 0 <= k < |copies| ==> copies[k].Damaged()
    ensures |last| == BUFMAX && CStr(last, 0) == payload
    ensures Receive(Idle(buffer), Stream(copies) + (Frame(payload) + rest)) ==
            Received(Some(0), last, Repeat("-", |copies|) + "+", rest)
    decreases |copies|
  {
    var clean := Frame(payload) + rest;
    if copies == [] {
      assert Stream(copies) + clean == clean;
      FrameReceived(Idle(buffer), payload, rest);
      last := Loaded(buffer, payload);
      CStrIs(last, 0, payload);
      assert Repeat("-", 0) + "+" == "+";
    } else {
      var c := copies[0];
      var more := Stream(copies[1..]) + clean;
      Associative(c.Wire(), Stream(copies[1..]), clean);
      CopyReceived(Idle(buffer), c.body, c.hi, c.lo, more);
      last := RejectsThenAccepts(Loaded(buffer, c.body), copies[1..], payload, rest);
      Associative("-", Repeat("-", |copies| - 1), "+");
    }
  }

  /** Every answer that is not '+' costs one more copy of the frame. */
  lemma {:induction false} Resends(text: string, answers: string, rest: string)
    requires '+' !in answers
    ensures Transmit(text, answers + ("+" + rest)) == Sent(Repeat(Frame(text), |answers| + 1), rest, true)
    decreases |answers|
  {
    var input := answers + ("+" + rest);
    if answers == "" {
      assert input == "+" + rest;
      assert ("+" + rest)[1..] == rest;
      assert Repeat(Frame(text), 1) == Frame(text) + Repeat(Frame(text), 0) == Frame(text);
    } else {
      assert input == [answers[0]] + (answers[1..] + ("+" + rest));
      assert input[1..] == answers[1..] + ("+" + rest);
      Resends(text, answers[1..], rest);
    }
  }

  lemma {:induction false} RepeatedDashes(n: nat)
    ensures |Repeat("-", n)| == n && '+' !in Repeat("-", n)
  {
    if n > 0 { RepeatedDashes(n - 1); }
  }

  /**
   * Stop-and-wait recovery: when the wire garbles one character of each of the first copies, the
   * receiver's answers make putpacket send exactly one copy more than were garbled, and the payload
   * is delivered unchanged.
   */
  lemma Recovery(buffer: string, payload: string, at: seq<nat>, wrong: string, rest: string)
    requires |buffer| == BUFMAX && Sendable(payload) && |at| == |wrong|
    requires forall i :: 0 <= i < |payload| ==> payload[i] as int < 256
    requires forall k :: 0 <= k < |at| ==>
      at[k] < |payload| && wrong[k] != payload[at[k]] && wrong[k] !in ['$', '#'] && wrong[k] as int < 256
    ensures var copies := seq(|at|, k requires 0 <= k < |at| => Garbled(payload, at[k], wrong[k]));
      var r := Receive(Idle(buffer), Stream(copies) + (Frame(payload) + rest));
      && r.packet == Some(0) && CStr(r.buffer, 0) == payload && r.rest == rest
      && Transmit(payload, r.output) == Sent(Repeat(Frame(payload), |at| + 1), "", true)
  {
    var copies := seq(|at|, k requires 0 <= k < |at| => Garbled(payload, at[k], wrong[k]));
    forall k | 0 <= k < |copies| ensures copies[k].Damaged() {
      GarbledIsDamaged(payload, at[k], wrong[k]);
    }
    var last := RejectsThenAccepts(buffer, copies, payload, rest);
    assert "+" + "" == "+";
    RepeatedDashes(|at|);
    Resends(payload, Repeat("-", |at|), "");
  }
}
