/** From typed characters to keycodes and back (backend/ConsoleInput.cpp). */
module Console {
  import opened Machine
  import opened Keyboard

  const MAX_CODE := 46
  const SHIFT_MAKE: byte := 0x2a
  const SHIFT_BREAK: byte := 0xaa
  const BREAK_MASK: byte := 0x80

  /** Keycodes, and the characters they stand for without and with shift. */
  datatype EncodeTable = EncodeTable(tab: seq<byte>, tabmin: string, tabmai: string) {
    /** Make codes are distinct, nonzero, below the break bit and none of them is a shift code. */
    predicate Good() {
      && |tab| == |tabmin| == |tabmai|
      && (forall p :: 0 <= p < |tab| ==> 0 < tab[p] < BREAK_MASK && tab[p] != SHIFT_MAKE)
      && (forall p, q :: 0 <= p < q < |tab| ==> tab[p] != tab[q])
    }
  }

  const ENC_TAB: seq<byte> := [
    0x02, 0x03, 0x04, 0x05, 0x06, 0x07, 0x08, 0x09, 0x0a, 0x0b,
    0x0c,
    0x10, 0x11, 0x12, 0x13, 0x14, 0x15, 0x16, 0x17, 0x18, 0x19] + [
    0x1e, 0x1f, 0x20, 0x21, 0x22, 0x23, 0x24, 0x25,
    0x26, 0x29, 0x2c, 0x2d, 0x2e, 0x2f, 0x30, 0x31, 0x32,
    0x33, 0x34, 0x35, 0x56,
    0x39, 0x1c, 0x0e, 0x01]

  const ENC_T: EncodeTable := EncodeTable(
    ENC_TAB,
    "1234567890'qwertyuiop" + "asdfghjkl\\zxcvbnm,.-< \r\U{8}\U{1b}",
    "!\"@$%&/()=?QWERTYUIOP" + "ASDFGHJKL|ZXCVBNM;:_> \n\U{8}\U{1b}")

  /** The first position of x, or the size of the table. */
  function Find<T(==)>(table: seq<T>, x: T): (pos: nat)
    ensures pos <= |table| && forall i :: 0 <= i < pos ==> table[i] != x
    ensures pos < |table| ==> table[pos] == x
  {
    if table == [] || table[0] == x then 0 else 1 + Find(table[1..], x)
  }

  lemma FindUnique<T>(table: seq<T>, x: T, pos: nat)
    requires pos <= |table| && (forall i :: 0 <= i < pos ==> table[i] != x)
    requires pos < |table| ==> table[pos] == x
    ensures Find(table, x) == pos
  {
  }

  // ----- encoding

  /** The keycode for a character (0 for none) and the shift state it needs. */
  function Lookup(t: EncodeTable, c: char, shift: bool): (byte, bool)
    requires t.Good()
  {
    var low, high := Find(t.tabmin, c), Find(t.tabmai, c);
    if low < |t.tab| then (t.tab[low], false)
    else if high < |t.tab| then (t.tab[high], true)
    else (0, shift)
  }

  /** The code a change of shift state sends, if any. */
  function ShiftKey(shift: bool, shift': bool): seq<byte> {
    if shift' == shift then [] else if shift' then [SHIFT_MAKE] else [SHIFT_BREAK]
  }

  /** The keycodes one character sends. */
  function Keys(t: EncodeTable, c: char, shift: bool): seq<byte>
    requires t.Good()
  {
    var (code, shift') := Lookup(t, c, shift);
    ShiftKey(shift, shift') + (if code == 0 then [] else [code, SetBit(code, BREAK_MASK)])
  }

  function Encode(t: EncodeTable, text: string, shift: bool): seq<byte>
    requires t.Good()
  {
    if text == "" then [] else Keys(t, text[0], shift) + Encode(t, text[1..], Lookup(t, text[0], shift).1)
  }

  class ConsoleInput {
    const attachedKeyboard: Controller
    var isShifted: bool

    constructor (keyboard: Controller)
      ensures attachedKeyboard == keyboard && !isShifted
    {
      attachedKeyboard := keyboard;
      isShifted := false;
    }

    static method AsciiToKeycode(t: EncodeTable, c: char, shift: bool) returns (code: byte, newShift: bool)
      requires t.Good()
      ensures (code, newShift) == Lookup(t, c, shift)
    {
      var pos := 0;
      while pos < |t.tab| && t.tabmin[pos] != c
        invariant pos <= |t.tab| && forall i :: 0 <= i < pos ==> t.tabmin[i] != c
      {
        pos := pos + 1;
      }
      FindUnique(t.tabmin, c, pos);
      newShift := false;
      if pos == |t.tab| {
        pos := 0;
        while pos < |t.tab| && t.tabmai[pos] != c
          invariant pos <= |t.tab| && forall i :: 0 <= i < pos ==> t.tabmai[i] != c
        {
          pos := pos + 1;
        }
        FindUnique(t.tabmai, c, pos);
        if pos == |t.tab| { return 0, shift; }
        newShift := true;
      }
      code := t.tab[pos];
    }

    /** One turn of the input thread, with nothing else touching the keyboard meanwhile. */
    method Forward(t: EncodeTable, c: char)
      requires t.Good() && attachedKeyboard.Valid()
      modifies this, attachedKeyboard, attachedKeyboard.buffer
      ensures attachedKeyboard.Valid() && isShifted == Lookup(t, c, old(isShifted)).1
      ensures attachedKeyboard.View() == Run(old(attachedKeyboard.View()), Presses(Keys(t, c, old(isShifted))))
    {
      hide Lookup, Step;
      ghost var k := attachedKeyboard.View();
      var newKeycode, newShift := AsciiToKeycode(t, c, isShifted);
      ghost var first := ShiftKey(isShifted, newShift);
      if isShifted != newShift && newShift {
        attachedKeyboard.InsertKeycodeEvent(SHIFT_MAKE);
      } else if isShifted != newShift && !newShift {
        attachedKeyboard.InsertKeycodeEvent(SHIFT_BREAK);
      }
      isShifted := newShift;
      RunOne(k, if first == [] then 0 else first[0]);
      ghost var k1 := attachedKeyboard.View();
      assert k1 == Run(k, Presses(first));
      if newKeycode != 0 {
        attachedKeyboard.InsertKeycodeEvent(newKeycode);
        attachedKeyboard.InsertKeycodeEvent(SetBit(newKeycode, BREAK_MASK));
        RunTwo(k1, newKeycode, SetBit(newKeycode, BREAK_MASK));
      }
      ghost var rest := if newKeycode == 0 then [] else [newKeycode, SetBit(newKeycode, BREAK_MASK)];
      assert attachedKeyboard.View() == Run(k1, Presses(rest));
      RunJoined(k, Presses(first), Presses(rest));
      assert Presses(first + rest) == Presses(first) + Presses(rest);
    }
  }

  function Presses(codes: seq<byte>): (events: seq<Event>)
    ensures |events| == |codes|
  {
    seq(|codes|, i requires 0 <= i < |codes| => Insert(codes[i]))
  }

  lemma RunOne(k: State, a: byte)
    ensures Run(k, Presses([])) == k && Run(k, Presses([a])) == Step(k, Insert(a))
  {
    hide Step;
    assert Presses([a])[1..] == [];
  }

  lemma RunTwo(k: State, a: byte, b: byte)
    ensures Run(k, Presses([a, b])) == Step(Step(k, Insert(a)), Insert(b))
  {
    hide Step;
    assert Presses([a, b])[1..] == Presses([b]);
    RunOne(Step(k, Insert(a)), b);
  }

  lemma {:induction false} RunJoined(k: State, a: seq<Event>, b: seq<Event>)
    ensures Run(k, a + b) == Run(Run(k, a), b)
    decreases |a|
  {
    hide Step;
    if a == [] {
      assert a + b == b;
    } else {
      assert (a + b)[1..] == a[1..] + b;
      RunJoined(Step(k, a[0]), a[1..], b);
    }
  }

  // ----- decoding

  /** A decoder over the same tables: the character a keycode stands for, and the new shift state. */
  function DecodeOne(t: EncodeTable, code: byte, shift: bool): (string, bool)
    requires t.Good()
  {
    if code == SHIFT_MAKE then ("", true)
    else if code == SHIFT_BREAK then ("", false)
    else
      var pos := Find(t.tab, code);
      if pos == |t.tab| then ("", shift) else ([if shift then t.tabmai[pos] else t.tabmin[pos]], shift)
  }

  function Decode(t: EncodeTable, codes: seq<byte>, shift: bool): string
    requires t.Good()
  {
    if codes == [] then ""
    else DecodeOne(t, codes[0], shift).0 + Decode(t, codes[1..], DecodeOne(t, codes[0], shift).1)
  }

  /** The decoder's shift state after some keycodes. */
  function ShiftAfter(t: EncodeTable, codes: seq<byte>, shift: bool): bool
    requires t.Good()
  {
    if codes == [] then shift else ShiftAfter(t, codes[1..], DecodeOne(t, codes[0], shift).1)
  }

  predicate Supported(t: EncodeTable, c: char) {
    c in t.tabmin || c in t.tabmai
  }

  /** The characters the console can send. */
  function Typed(t: EncodeTable, text: string): string {
    if text == "" then "" else (if Supported(t, text[0]) then [text[0]] else "") + Typed(t, text[1..])
  }

  // ----- decoding undoes encoding

  /** A make code decodes to its character; its break code and the shift codes decode to nothing. */
  lemma KeyDecodes(t: EncodeTable, p: nat, shift: bool)
    requires t.Good() && p < |t.tab|
    ensures DecodeOne(t, t.tab[p], shift) == ([if shift then t.tabmai[p] else t.tabmin[p]], shift)
    ensures DecodeOne(t, SetBit(t.tab[p], BREAK_MASK), shift) == ("", shift)
  {
    FindUnique(t.tab, t.tab[p], p);
    var up := SetBit(t.tab[p], BREAK_MASK);
    assert up == t.tab[p] + BREAK_MASK;
    FindUnique(t.tab, up, |t.tab|);
  }

  lemma {:induction false} DecodeJoined(t: EncodeTable, a: seq<byte>, b: seq<byte>, shift: bool)
    requires t.Good()
    ensures Decode(t, a + b, shift) == Decode(t, a, shift) + Decode(t, b, ShiftAfter(t, a, shift))
    ensures ShiftAfter(t, a + b, shift) == ShiftAfter(t, b, ShiftAfter(t, a, shift))
    decreases |a|
  {
    hide DecodeOne;
    if a == [] {
      assert a + b == b;
    } else {
      assert (a + b)[1..] == a[1..] + b;
      DecodeJoined(t, a[1..], b, DecodeOne(t, a[0], shift).1);
    }
  }

  lemma DecodeFew(t: EncodeTable, a: byte, b: byte, shift: bool)
    requires t.Good()
    ensures Decode(t, [], shift) == "" && ShiftAfter(t, [], shift) == shift
    ensures var (c, s) := DecodeOne(t, a, shift);
      Decode(t, [a], shift) == c && ShiftAfter(t, [a], shift) == s
    ensures var (c, s) := DecodeOne(t, a, shift);
      Decode(t, [a, b], shift) == c + DecodeOne(t, b, s).0 && ShiftAfter(t, [a, b], shift) == DecodeOne(t, b, s).1
  {
    hide DecodeOne;
    var (c, s) := DecodeOne(t, a, shift);
    DecodeNil(t, s);
    DecodeLast(t, a, shift);
    DecodeLast(t, b, s);
    assert [a, b][1..] == [b];
  }

  lemma DecodeNil(t: EncodeTable, shift: bool)
    requires t.Good()
    ensures Decode(t, [], shift) == "" && ShiftAfter(t, [], shift) == shift
  {
  }

  lemma DecodeLast(t: EncodeTable, a: byte, shift: bool)
    requires t.Good()
    ensures var (c, s) := DecodeOne(t, a, shift);
      Decode(t, [a], shift) == c && ShiftAfter(t, [a], shift) == s
  {
    hide DecodeOne;
    var (c, s) := DecodeOne(t, a, shift);
    assert [a][1..] == [];
    DecodeNil(t, s);
    assert c + "" == c;
  }

  lemma ShiftDecodes(t: EncodeTable, shift: bool, shift': bool)
    requires t.Good()
    ensures Decode(t, ShiftKey(shift, shift'), shift) == "" && ShiftAfter(t, ShiftKey(shift, shift'), shift) == shift'
  {
    DecodeNil(t, shift);
    DecodeLast(t, if shift' then SHIFT_MAKE else SHIFT_BREAK, shift);
  }

  lemma KeysDecode(t: EncodeTable, c: char, shift: bool)
    requires t.Good()
    ensures Decode(t, Keys(t, c, shift), shift) == (if Supported(t, c) then [c] else "")
    ensures ShiftAfter(t, Keys(t, c, shift), shift) == Lookup(t, c, shift).1
  {
    var (code, shift') := Lookup(t, c, shift);
    var (low, high) := (Find(t.tabmin, c), Find(t.tabmai, c));
    assert Supported(t, c) <==> low < |t.tab| || high < |t.tab|;
    var p := if low < |t.tab| then low else high;
    var first := ShiftKey(shift, shift');
    ShiftDecodes(t, shift, shift');
    if p < |t.tab| {
      KeyDecodes(t, p, shift');
      var up := SetBit(code, BREAK_MASK);
      hide DecodeOne, SetBit;
      DecodeFew(t, code, up, shift');
      DecodeJoined(t, first, [code, up], shift);
      assert "" + ([c] + "") == [c];
    } else {
      assert first + [] == first;
    }
  }

  /** Decoding undoes encoding, whatever shift state it starts in. */
  lemma {:induction false} DecodeEncode(t: EncodeTable, text: string, shift: bool)
    requires t.Good()
    ensures Decode(t, Encode(t, text, shift), shift) == Typed(t, text)
    decreases |text|
  {
    if text != "" {
      KeysDecode(t, text[0], shift);
      hide Keys, Lookup, DecodeOne, Supported;
      DecodeEncode(t, text[1..], Lookup(t, text[0], shift).1);
      DecodeJoined(t, Keys(t, text[0], shift), Encode(t, text[1..], Lookup(t, text[0], shift).1), shift);
    }
  }

  // ----- the table in the source is good

  /** The position a keycode must have, from the runs of consecutive codes in the table. */
  function Position(code: byte): int {
    if 0x02 <= code <= 0x0c then code - 0x02
    else if 0x10 <= code <= 0x19 then code - 0x10 + 11
    else if 0x1e <= code <= 0x26 then code - 0x1e + 21
    else if code == 0x29 then 30
    else if 0x2c <= code <= 0x35 then code - 0x2c + 31
    else if code == 0x56 then 41
    else if code == 0x39 then 42
    else if code == 0x1c then 43
    else if code == 0x0e then 44
    else 45
  }

  predicate CodeOk(code: byte, p: nat) {
    Position(code) == p && 0 < code < BREAK_MASK && code != SHIFT_MAKE
  }

  lemma LowCodes(p: nat)
    requires p < 21
    ensures |ENC_TAB| == MAX_CODE && CodeOk(ENC_TAB[p], p)
  {
    assert p in {0, 1, 2, 3, 4, 5, 6, 7, 8, 9, 10, 11, 12, 13, 14, 15, 16, 17, 18, 19, 20};
  }

  lemma HighCodes(p: nat)
    requires 21 <= p < MAX_CODE
    ensures |ENC_TAB| == MAX_CODE && CodeOk(ENC_TAB[p], p)
  {
    assert p in {21, 22, 23, 24, 25, 26, 27, 28, 29, 30, 31, 32, 33, 34, 35, 36, 37, 38, 39, 40, 41, 42, 43, 44, 45};
  }

  lemma TableSize()
    ensures |ENC_TAB| == |ENC_T.tabmin| == |ENC_T.tabmai| == MAX_CODE
  {
  }

  lemma TableIsGood()
    ensures ENC_T.Good() && ENC_T.tab == ENC_TAB
  {
    TableSize();
    forall p | 0 <= p < |ENC_TAB| ensures CodeOk(ENC_TAB[p], p) {
      if p < 21 { LowCodes(p); } else { HighCodes(p); }
    }
  }

  // ----- the keyboard the table stands for

  /** A row of keys with consecutive codes, and their characters without and with shift. */
  ghost predicate Row(t: EncodeTable, first: nat, low: string, high: string) {
    && t.Good() && |low| == |high| && first + |low| < 0x80
    && forall i: nat, code: byte :: i < |low| && code == first + i ==>
         DecodeOne(t, code, false).0 == [low[i]] && DecodeOne(t, code, true).0 == [high[i]]
  }

  /** Where the table keeps a key. */
  predicate Kept(t: EncodeTable, p: nat, code: nat, low: char, high: char) {
    p < |t.tab| == |t.tabmin| == |t.tabmai| && t.tab[p] == code && t.tabmin[p] == low && t.tabmai[p] == high
  }

  lemma RowKept(t: EncodeTable, first: nat, low: string, high: string, p: nat)
    requires t.Good() && |low| == |high| && first + |low| < 0x80
    requires forall i :: 0 <= i < |low| ==> Kept(t, p + i, first + i, low[i], high[i])
    ensures Row(t, first, low, high)
  {
    hide Find;
    forall i: nat, code: byte | i < |low| && code == first + i
      ensures DecodeOne(t, code, false).0 == [low[i]] && DecodeOne(t, code, true).0 == [high[i]]
    {
      assert Kept(t, p + i, first + i, low[i], high[i]);
      KeyDecodes(t, p + i, false);
      KeyDecodes(t, p + i, true);
    }
  }

  lemma DigitsKept(i: nat)
    requires i < 11
    ensures Kept(ENC_T, i, 0x02 + i, "1234567890'"[i], "!\"@$%&/()=?"[i])
  {
    TableSize();
    assert i in {0, 1, 2, 3, 4, 5, 6, 7, 8, 9, 10};
  }

  lemma TopKept(i: nat)
    requires i < 10
    ensures Kept(ENC_T, 11 + i, 0x10 + i, "qwertyuiop"[i], "QWERTYUIOP"[i])
  {
    TableSize();
    assert i in {0, 1, 2, 3, 4, 5, 6, 7, 8, 9};
  }

  lemma HomeKept(i: nat)
    requires i < 9
    ensures Kept(ENC_T, 21 + i, 0x1e + i, "asdfghjkl"[i], "ASDFGHJKL"[i])
  {
    TableSize();
    assert i in {0, 1, 2, 3, 4, 5, 6, 7, 8};
  }

  lemma BottomKept(i: nat)
    requires i < 10
    ensures Kept(ENC_T, 31 + i, 0x2c + i, "zxcvbnm,.-"[i], "ZXCVBNM;:_"[i])
  {
    TableSize();
    assert i in {0, 1, 2, 3, 4, 5, 6, 7, 8, 9};
  }

  lemma OthersKept()
    ensures Kept(ENC_T, 30, 0x29, '\\', '|') && Kept(ENC_T, 41, 0x56, '<', '>') && Kept(ENC_T, 42, 0x39, ' ', ' ')
    ensures Kept(ENC_T, 43, 0x1c, '\r', '\n') && Kept(ENC_T, 44, 0x0e, '\U{8}', '\U{8}')
    ensures Kept(ENC_T, 45, 0x01, '\U{1b}', '\U{1b}')
  {
    TableSize();
  }

  /** The make codes are those of the keys of a PC keyboard, row by row. */
  lemma KeyboardRows()
    ensures Row(ENC_T, 0x02, "1234567890'", "!\"@$%&/()=?")
    ensures Row(ENC_T, 0x10, "qwertyuiop", "QWERTYUIOP")
    ensures Row(ENC_T, 0x1e, "asdfghjkl", "ASDFGHJKL") && Row(ENC_T, 0x2c, "zxcvbnm,.-", "ZXCVBNM;:_")
    ensures Row(ENC_T, 0x29, "\\", "|") && Row(ENC_T, 0x56, "<", ">")
    ensures Row(ENC_T, 0x39, " ", " ") && Row(ENC_T, 0x1c, "\r", "\n")
    ensures Row(ENC_T, 0x0e, "\U{8}", "\U{8}") && Row(ENC_T, 0x01, "\U{1b}", "\U{1b}")
  {
    hide Row, Kept;
    TableIsGood();
    forall i: nat | i < 11 ensures Kept(ENC_T, 0 + i, 0x02 + i, "1234567890'"[i], "!\"@$%&/()=?"[i]) { DigitsKept(i); }
    forall i: nat | i < 10 ensures Kept(ENC_T, 11 + i, 0x10 + i, "qwertyuiop"[i], "QWERTYUIOP"[i]) { TopKept(i); }
    forall i: nat | i < 9 ensures Kept(ENC_T, 21 + i, 0x1e + i, "asdfghjkl"[i], "ASDFGHJKL"[i]) { HomeKept(i); }
    forall i: nat | i < 10 ensures Kept(ENC_T, 31 + i, 0x2c + i, "zxcvbnm,.-"[i], "ZXCVBNM;:_"[i]) { BottomKept(i); }
    OthersKept();
    RowKept(ENC_T, 0x02, "1234567890'", "!\"@$%&/()=?", 0);
    RowKept(ENC_T, 0x10, "qwertyuiop", "QWERTYUIOP", 11);
    RowKept(ENC_T, 0x1e, "asdfghjkl", "ASDFGHJKL", 21);
    RowKept(ENC_T, 0x2c, "zxcvbnm,.-", "ZXCVBNM;:_", 31);
    RowKept(ENC_T, 0x29, "\\", "|", 30);
    RowKept(ENC_T, 0x56, "<", ">", 41);
    RowKept(ENC_T, 0x39, " ", " ", 42);
    RowKept(ENC_T, 0x1c, "\r", "\n", 43);
    RowKept(ENC_T, 0x0e, "\U{8}", "\U{8}", 44);
    RowKept(ENC_T, 0x01, "\U{1b}", "\U{1b}", 45);
  }

  /** A supported character sends the shift code it needs, if any, and the make and break codes of its key. */
  lemma KeysSent(t: EncodeTable, c: char, shift: bool) returns (code: byte)
    requires t.Good() && Supported(t, c)
    ensures var shift' := Lookup(t, c, shift).1;
      && code < 0x80 && DecodeOne(t, code, shift').0 == [c]
      && Keys(t, c, shift) ==
         (if shift' == shift then [] else if shift' then [0x2a] else [0xaa]) + [code, code + 0x80]
  {
    code := Lookup(t, c, shift).0;
    KeyDecodes(t, Find(t.tab, code), Lookup(t, c, shift).1);
    hide Find;
  }

  /**
   * End to end: in any interleaving of the input thread's inserts with the guest's accesses that drops
   * nothing, what the guest polled decodes to a beginning of the supported characters typed, and to
   * all of them once the queue is drained.
   */
  lemma EndToEnd(t: EncodeTable, k: State, events: seq<Event>, text: string, shift: bool)
    requires t.Good()
    requires Inv(k) && k.queue == [] && Dropless(k, events) && Inserted(events) == Encode(t, text, shift)
    ensures Decode(t, Polled(k, events), shift) <= Typed(t, text)
    ensures Run(k, events).queue == [] ==> Decode(t, Polled(k, events), shift) == Typed(t, text)
    ensures Patient(k, events, false) ==> Heard(k, events, false) == Polled(k, events)
  {
    if Patient(k, events, false) { HeardArePolled(k, events, false); }
    var (polled, queue) := (Polled(k, events), Run(k, events).queue);
    Delivery(k, events);
    DecodeEncode(t, text, shift);
    DecodeJoined(t, polled, queue, shift);
    if queue == [] {
      assert polled + queue == polled;
    }
  }
}
