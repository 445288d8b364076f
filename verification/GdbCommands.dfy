/** What each command and each report of the stub says to the client, in the protocol's own terms. */
module GdbCommands {
  import opened Machine
  import opened CStrings
  import opened GdbCodec
  import opened GdbFraming
  import opened GdbReliability
  import opened GdbStub
  import opened GdbSession

  /** Two digits that denote a byte. */
  predicate Tells(text: string, b: byte) {
    |text| == 2 && AllHex(text) && HexValue(text) == b
  }

  lemma TwoDigits(b: byte)
    ensures Tells([HEXCHARS[b / 16], HEXCHARS[b % 16]], b)
  {
    HexOfDigit(b / 16);
    HexOfDigit(b % 16);
    var text := [HEXCHARS[b / 16], HEXCHARS[b % 16]];
    assert text[..1] == [HEXCHARS[b / 16]] && text[..1][..0] == "";
    assert HexValue(text[..1]) == b / 16;
  }

  // ----- commands of one letter

  /** A one-letter command arrives behind any noise, and leaves index 2 of the buffer alone. */
  lemma LetterReceived(buffer: string, noise: string, c: char, rest: string)
    requires Closed(buffer) && buffer[2] != ':' && '$' !in noise && c !in ['$', '#', '\0']
    ensures var b := Loaded(buffer, [c]);
      && Receive(Idle(buffer), noise + (Frame([c]) + rest)) == Received(Some(0), b, "+", rest)
      && Closed(b) && b[0] == c && b[1] == '\0' && b[2] != ':'
  {
    hide Receive, Frame;
    JunkSkipped(buffer, noise, Frame([c]) + rest);
    FrameReceived(Idle(buffer), [c], rest);
  }

  /** How a stop ends on a one-letter command. */
  function StopOf(c: char): Stop {
    if c == 's' then Resumed(true) else if c == 'c' then Resumed(false) else Killed
  }

  /** 's' resumes with single steps, 'c' without and 'k' ends the program; nothing is replied or changed. */
  lemma CommandEnds(core: Core, buffer: string, sig: byte, noise: string, c: char, rest: string)
    requires core.Valid() && Closed(buffer) && buffer[2] != ':' && '$' !in noise && c in ['s', 'c', 'k']
    ensures Serve(core, buffer, sig, noise + (Frame([c]) + rest)) ==
            Served(core, Loaded(buffer, [c]), "+", rest, StopOf(c))
  {
    hide Receive, Frame, Loaded;
    LetterReceived(buffer, noise, c, rest);
    StandardIs(Loaded(buffer, [c]), 0, sig, core);
  }

  /** A session of commands that ends by resuming or killing the program. */
  lemma SessionEnds(
      core: Core, buffer: string, sig: byte, xs: seq<Exchange>, noise: string, c: char, rest: string)
    returns (core': Core, buffer': string)
    requires core.Valid() && Closed(buffer) && buffer[2] != ':' && AllValid(xs, |core.mem|)
    requires '$' !in noise && c in ['s', 'c', 'k']
    ensures core'.Valid() && Abs(core') == Play(Abs(core), xs).0
    ensures Serve(core, buffer, sig, SessionInput(xs) + (noise + (Frame([c]) + rest))) ==
            Served(core', buffer', Play(Abs(core), xs).1 + "+", rest, StopOf(c))
  {
    hide Serve, Frame, Abs, Loaded;
    var core1, buffer1 := SessionRefines(core, buffer, sig, xs, noise + (Frame([c]) + rest));
    CommandEnds(core1, buffer1, sig, noise, c, rest);
    core', buffer' := core1, Loaded(buffer1, [c]);
  }

  /** One prompt on which a letter is answered by a text, however often the client refuses it. */
  lemma LetterAnswered(core: Core, buffer: string, sig: byte, noise: string, c: char, text: string, refusals: string,
                       rest: string)
    requires core.Valid() && Closed(buffer) && buffer[2] != ':' && '$' !in noise && '+' !in refusals
    requires c !in ['$', '#', '\0', 'q']
    requires Standard(Loaded(buffer, [c]), 0, sig, core) == Says(text, core)
    ensures ServedOnce(core, buffer, sig, noise + (Frame([c]) + (refusals + ("+" + rest)))) ==
            Served(core, Loaded(buffer, [c]), "+" + Repeat(Frame(text), |refusals| + 1), rest, Continuing)
  {
    hide Receive, Frame, Loaded, Transmit, Standard, Exec;
    LetterReceived(buffer, noise, c, refusals + ("+" + rest));
    StandardIs(Loaded(buffer, [c]), 0, sig, core);
    Resends(text, refusals, rest);
  }

  /** '?' is answered by 'S' and the signal. */
  lemma QuestionAnswered(core: Core, buffer: string, sig: byte, noise: string, refusals: string, rest: string)
    returns (text: string)
    requires core.Valid() && Closed(buffer) && buffer[2] != ':' && '$' !in noise && '+' !in refusals
    ensures |text| == 3 && text[0] == 'S' && Tells(text[1..], sig)
    ensures ServedOnce(core, buffer, sig, noise + (Frame("?") + (refusals + ("+" + rest)))) ==
            Served(core, Loaded(buffer, "?"), "+" + Repeat(Frame(text), |refusals| + 1), rest, Continuing)
  {
    hide Receive, Frame, ServedOnce;
    text := ['S', HEXCHARS[sig / 16], HEXCHARS[sig % 16]];
    TwoDigits(sig);
    assert text[1..] == [HEXCHARS[sig / 16], HEXCHARS[sig % 16]];
    LetterReceived(buffer, noise, '?', refusals + ("+" + rest));
    LetterAnswered(core, buffer, sig, noise, '?', text, refusals, rest);
  }

  /** Every command but these gets an empty reply and changes nothing. */
  lemma OthersAreEmpty(s: string, start: nat, sig: byte, core: Core)
    requires Closed(s) && start <= 3 && core.Valid()
    requires s[start] !in ['?', 'g', 'G', 'p', 'P', 'm', 'M', 's', 'c', 'k'] && s[start..start + 6] != "qRcmd,"
    ensures Exec(s, start, sig, core) == Says("", core)
  {
    hide Monitor;
  }

  // ----- what is refused

  /** Digits and the character c behind them. */
  predicate DigitsThen(s: string, p: nat, q: nat, c: char) {
    p < q < |s| && AllHex(s[p..q]) && s[q] == c
  }

  lemma DigitsEnd(s: string, p: nat, q: nat, c: char)
    requires Closed(s) && Hex(c) < 0 && DigitsThen(s, p, q, c)
    ensures NumEnd(s, p) == q
  {
    SkipHexUnique(s, p, q);
  }

  lemma EndIsDigits(s: string, p: nat)
    requires Closed(s) && p < BUFMAX
    ensures NumEnd(s, p) > p ==> DigitsThen(s, p, NumEnd(s, p), s[NumEnd(s, p)])
  {
    var q := NumEnd(s, p);
    assert forall i :: 0 <= i < q - p ==> s[p..q][i] == s[p + i];
  }

  /** A memory read is refused with E01 exactly when it is not digits, a comma and at least one digit. */
  lemma ReadSyntax(s: string, sig: byte, core: Core)
    requires Closed(s) && core.Valid() && s[0] == 'm'
    ensures Exec(s, 0, sig, core).outcome == Reply("E01") <==>
            !(exists q: nat :: DigitsThen(s, 1, q, ',') && Hex(s[q + 1]) >= 0)
  {
    hide Exec, Monitor, HexText, Num, SkipHex, AllHex;
    StandardIs(s, 0, sig, core);
    assert Standard(s, 0, sig, core) == GdbStub.ReadMem(s, 1, core);
    hide Standard;
    var q := NumEnd(s, 1);
    EndIsDigits(s, 1);
    if s[q] == ',' { EndIsDigits(s, q + 1); }
    if exists q: nat :: DigitsThen(s, 1, q, ',') && Hex(s[q + 1]) >= 0 {
      var q': nat :| DigitsThen(s, 1, q', ',') && Hex(s[q' + 1]) >= 0;
      DigitsEnd(s, 1, q', ',');
      DigitFollows(s, q' + 1);
    }
  }

  lemma DigitFollows(s: string, p: nat)
    requires Closed(s) && p < BUFMAX && Hex(s[p]) >= 0
    ensures NumEnd(s, p) > p
  {
  }

  ghost predicate FieldThen(s: string, p: nat, c: char) {
    exists q: nat :: DigitsThen(s, p, q, c)
  }

  /** A memory write is refused with E02 exactly when it is not digits, a comma, digits and a colon. */
  lemma WriteSyntax(s: string, sig: byte, core: Core)
    requires Closed(s) && core.Valid() && s[0] == 'M'
    ensures Exec(s, 0, sig, core).outcome == Reply("E02") <==>
            !(exists q: nat :: DigitsThen(s, 1, q, ',') && FieldThen(s, q + 1, ':'))
  {
    hide Exec, Monitor, Num, SkipHex, Unhex, Patch, AllHex;
    StandardIs(s, 0, sig, core);
    assert Standard(s, 0, sig, core) == GdbStub.WriteMem(s, 1, core);
    hide Standard;
    var q := NumEnd(s, 1);
    EndIsDigits(s, 1);
    if s[q] == ',' { EndIsDigits(s, q + 1); }
    if exists q: nat :: DigitsThen(s, 1, q, ',') && FieldThen(s, q + 1, ':') {
      var q': nat :| DigitsThen(s, 1, q', ',') && FieldThen(s, q' + 1, ':');
      var r': nat :| DigitsThen(s, q' + 1, r', ':');
      DigitsEnd(s, 1, q', ',');
      DigitsEnd(s, q + 1, r', ':');
    }
  }

  /** A register command without a number, or a write without '=' behind it, is refused with E01. */
  lemma RegisterSyntax(s: string, sig: byte, core: Core)
    requires Closed(s) && core.Valid()
    ensures s[0] in ['p', 'P'] && Hex(s[1]) < 0 ==> Exec(s, 0, sig, core) == Says("E01", core)
    ensures s[0] == 'P' && !FieldThen(s, 1, '=') ==> Exec(s, 0, sig, core) == Says("E01", core)
  {
    hide Exec, Monitor, Num, Unhex, Patch, HexText, Reload;
    if s[0] in ['p', 'P'] {
      StandardIs(s, 0, sig, core);
      EndIsDigits(s, 1);
    }
  }

  // ----- reports

  /** For SIGILL and SIGTERM the client is sent 'X' and the signal, and the connection is closed. */
  lemma ExitReported(core: Core, buffer: string, sig: byte, refusals: string, input: string)
    returns (text: string)
    requires core.Valid() && Closed(buffer) && sig in {4, 15} && '+' !in refusals
    ensures |text| == 3 && text[0] == 'X' && Tells(text[1..], sig)
    ensures Handle(core, buffer, sig, refusals + ("+" + input)) ==
            Served(core, buffer, Repeat(Frame(text), |refusals| + 1), input, Detached)
  {
    hide Frame, Transmit, Serve, StopReply;
    text := ExitReply(sig);
    TwoDigits(sig);
    assert text[1..] == [HEXCHARS[sig / 16], HEXCHARS[sig % 16]];
    Resends(text, refusals, input);
  }

  /** A register number in hex, a colon, the register's bytes in hex and a semicolon. */
  predicate Reports(item: string, width: nat, cache: seq<byte>, n: nat)
    requires |cache| == NUMREGBYTES && n < NUMREGS
  {
    && |item| == width + 18 && AllHex(item[..width]) && HexValue(item[..width]) == n && item[width] == ':'
    && Unhex(item[width + 1..width + 17]) == ToBytes(Registers(cache)[n], 8) && item[width + 17] == ';'
  }

  /** The stop report is 'T', the signal, and registers 7, 6 and 16: SP, FP and PC. */
  lemma StopReported(sig: byte, cache: seq<byte>)
    requires |cache| == NUMREGBYTES
    ensures var text := StopReply(sig, cache);
      && |text| == 61 && text[0] == 'T' && Tells(text[1..3], sig)
      && Reports(text[3..22], 1, cache, 7) && Reports(text[22..41], 1, cache, 6) && Reports(text[41..], 2, cache, 16)
  {
    var text := StopReply(sig, cache);
    StopReplyIsPlain(sig, cache);
    TwoDigits(sig);
    OneDigit(7);
    OneDigit(6);
    TwoDigits(16);
    var sp, fp, pc := Item(SP_LABEL, 7, cache), Item(FP_LABEL, 6, cache), Item(PC_LABEL, 16, cache);
    hide Item;
    ItemLength(SP_LABEL, 7, cache);
    ItemLength(FP_LABEL, 6, cache);
    ItemLength(PC_LABEL, 16, cache);
    assert text[1..3] == [HEXCHARS[sig / 16], HEXCHARS[sig % 16]];
    assert text[3..22] == sp && text[22..41] == fp && text[41..] == pc;
    ItemReports(SP_LABEL, cache, 7);
    ItemReports(FP_LABEL, cache, 6);
    ItemReports(PC_LABEL, cache, 16);
  }

  lemma OneDigit(n: nat)
    requires n < 16
    ensures AllHex([HEXCHARS[n]]) && HexValue([HEXCHARS[n]]) == n
  {
    HexOfDigit(n);
    assert [HEXCHARS[n]][..0] == "";
  }

  lemma ItemLength(tag: string, n: nat, cache: seq<byte>)
    requires |cache| == NUMREGBYTES && n < NUMREGS
    ensures |Item(tag, n, cache)| == |tag| + 18
  {
  }

  lemma ItemReports(tag: string, cache: seq<byte>, n: nat)
    requires |cache| == NUMREGBYTES && n < NUMREGS && AllHex(tag) && HexValue(tag) == n
    ensures Reports(Item(tag, n, cache), |tag|, cache, n)
  {
    hide HexText, Unhex, HexValue, AllHex, Registers, ToBytes;
    UnhexHexText(cache[8 * n..8 * n + 8]);
    BytesOfRegister(cache, n);
    ItemParts(tag, n, cache);
  }

  lemma BytesOfRegister(cache: seq<byte>, n: nat)
    requires |cache| == NUMREGBYTES && n < NUMREGS
    ensures ToBytes(Registers(cache)[n], 8) == cache[8 * n..8 * n + 8]
  {
    hide RegisterImage;
    ImageOfRegisters(cache);
  }

  lemma ItemParts(tag: string, n: nat, cache: seq<byte>)
    requires |cache| == NUMREGBYTES && n < NUMREGS
    ensures var (item, w) := (Item(tag, n, cache), |tag|);
      && |item| == w + 18 && item[..w] == tag && item[w] == ':' && item[w + 17] == ';'
      && item[w + 1..w + 17] == HexText(cache[8 * n..8 * n + 8])
  {
    hide HexText;
  }

  // ----- register numbers

  /** The cache is numbered as gdb numbers the amd64 registers. */
  lemma NumberedAsInGdb(r: KvmRegs, s: Selectors)
    ensures var v := Submitted(r, s);
      && v[0] == r.rax && v[1] == r.rbx && v[2] == r.rcx && v[3] == r.rdx && v[4] == r.rsi && v[5] == r.rdi
      && v[6] == r.rbp && v[7] == r.rsp
    ensures var v := Submitted(r, s);
      && v[8] == r.r8 && v[9] == r.r9 && v[10] == r.r10 && v[11] == r.r11 && v[12] == r.r12 && v[13] == r.r13
      && v[14] == r.r14 && v[15] == r.r15
    ensures var v := Submitted(r, s);
      && v[16] == r.rip && v[17] == r.rflags
      && v[18] == s.cs && v[19] == s.ss && v[20] == s.ds && v[21] == s.es && v[22] == s.fs && v[23] == s.gs
  {
    LowNumbers(r, s);
    MiddleNumbers(r, s);
    HighNumbers(r, s);
    hide Submitted;
  }

  lemma LowNumbers(r: KvmRegs, s: Selectors)
    ensures Submitted(r, s)[..8] == [r.rax, r.rbx, r.rcx, r.rdx, r.rsi, r.rdi, r.rbp, r.rsp]
  {
  }

  lemma MiddleNumbers(r: KvmRegs, s: Selectors)
    ensures Submitted(r, s)[8..16] == [r.r8, r.r9, r.r10, r.r11, r.r12, r.r13, r.r14, r.r15]
  {
  }

  lemma HighNumbers(r: KvmRegs, s: Selectors)
    ensures Submitted(r, s)[16..] == [r.rip, r.rflags, s.cs, s.ss, s.ds, s.es, s.fs, s.gs]
  {
  }
}
