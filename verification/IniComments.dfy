/** Comment and blank lines change nothing but line numbers (INIReader.h). */
module IniComments {
  import opened CStrings
  import opened IniText
  import opened IniParser
  import opened IniLines
  import opened IniRoundTrip

  /** A blank line, or one whose first visible character starts a comment. */
  predicate Neutral(line: string) {
    var text := LSkip(RStrip(line));
    text == "" || text[0] == ';' || text[0] == '#'
  }

  predicate WholeLines(text: string) {
    text != "" ==> text[|text| - 1] == '\n'
  }

  /** Every buffer the text fills is neutral, as with comment and blank lines that fit one. */
  predicate NeutralText(text: string)
    decreases |text|
  {
    text == "" || (Neutral(CStr(text[..ChunkLength(text)], 0)) && NeutralText(text[ChunkLength(text)..]))
  }

  /** How many buffers a text fills. */
  function Buffers(text: string): nat
    decreases |text|
  {
    if text == "" then 0 else 1 + Buffers(text[ChunkLength(text)..])
  }

  /** The same outcome with d more lines after the first k. */
  function Shifted(st: State, d: nat, k: nat): State {
    st.(lineno := st.lineno + d, error := if st.error > k then st.error + d else st.error)
  }

  lemma BomIsNotNeutral(line: string)
    requires Bom(line)
    ensures !Neutral(line)
  {
    var stripped := RStrip(line);
    assert |stripped| >= 3 && stripped[0] == line[0];
    IndentUnique(stripped, 0);
  }

  lemma NeutralLine(st: State, line: string)
    requires Neutral(line)
    ensures ParseLine(st, line) == st.(lineno := st.lineno + 1)
  {
    if Bom(line) { BomIsNotNeutral(line); }
    assert line[0..] == line;
  }

  lemma {:induction false} NeutralRun(st: State, text: string)
    requires NeutralText(text)
    ensures ParseText(st, text) == st.(lineno := st.lineno + Buffers(text))
    decreases |text|
  {
    if text != "" {
      hide ParseLine, Neutral, CStr;
      var n := ChunkLength(text);
      NeutralLine(st, CStr(text[..n], 0));
      NeutralRun(st.(lineno := st.lineno + 1), text[n..]);
    }
  }

  /** A comment or blank line that fits the buffer. */
  lemma ShortLineIsNeutral(line: string)
    requires Plain(line) && |line| <= 198 && Neutral(line)
    ensures NeutralText(line + "\n") && WholeLines(line + "\n") && Buffers(line + "\n") == 1
  {
    hide Neutral, CStr;
    var text := line + "\n";
    assert forall k :: 0 <= k < |line| ==> text[k] == line[k] && line[k] in line;
    ChunkFromIs(text, 0, |line|);
    CStrWhole(text);
    NewlineIsNeutral(line);
    assert text[..|text|] == text && text[|text|..] == "";
  }

  lemma NewlineIsNeutral(line: string)
    ensures Neutral(line + "\n") == Neutral(line)
  {
    assert (line + "\n")[..|line|] == line;
    assert RStrip(line + "\n") == RStrip(line);
  }

  lemma {:induction false} ChunkFromJoin(a: string, z: string, i: nat)
    requires i < |a| && i < MAX_LINE && WholeLines(a)
    ensures ChunkFrom(a + z, i) == ChunkFrom(a, i)
    decreases |a| - i
  {
    assert (a + z)[i] == a[i];
    if a[i] != '\n' && i < MAX_LINE - 1 { ChunkFromJoin(a, z, i + 1); }
  }

  /** A text that ends in a newline is parsed before whatever follows it. */
  lemma {:induction false} ParseTextJoin(st: State, a: string, z: string)
    requires WholeLines(a)
    ensures ParseText(st, a + z) == ParseText(ParseText(st, a), z)
    decreases |a|
  {
    hide ParseLine, CStr;
    if a == "" {
      assert a + z == z;
    } else {
      ChunkFromJoin(a, z, 0);
      var n := ChunkLength(a);
      assert (a + z)[..n] == a[..n] && (a + z)[n..] == a[n..] + z;
      ParseTextJoin(ParseLine(st, CStr(a[..n], 0)), a[n..], z);
    }
  }

  lemma ShiftedLine(st: State, raw: string, d: nat, k: nat)
    requires k <= st.lineno && (st.lineno == 0 ==> !Bom(raw))
    ensures ParseLine(Shifted(st, d, k), raw) == Shifted(ParseLine(st, raw), d, k)
    ensures ParseLine(st, raw).lineno > 0
  {
    hide RStrip, LSkip, Indent, MeaningOf, Handle;
  }

  /** Where a line starts makes no difference, except in front of a byte order mark. */
  lemma {:induction false} ShiftedText(st: State, text: string, d: nat, k: nat)
    requires k <= st.lineno && (st.lineno == 0 ==> !Bom(text))
    ensures ParseText(Shifted(st, d, k), text) == Shifted(ParseText(st, text), d, k)
    decreases |text|
  {
    if text != "" {
      hide ParseLine;
      var n := ChunkLength(text);
      var raw := CStr(text[..n], 0);
      assert Bom(raw) ==> Bom(text) by {
        assert forall i :: 0 <= i < |raw| ==> raw[i] == text[i];
      }
      ShiftedLine(st, raw, d, k);
      LineCounted(st, raw);
      ShiftedText(ParseLine(st, raw), text[n..], d, k);
    }
  }

  /** An error is reported for a line already read. */
  lemma {:induction false} ErrorWasRead(st: State, text: string)
    requires st.error <= st.lineno
    ensures ParseText(st, text).error <= ParseText(st, text).lineno
    decreases |text|
  {
    if text != "" {
      var n := ChunkLength(text);
      ErrorWasRead(ParseLine(st, CStr(text[..n], 0)), text[n..]);
    }
  }

  /** Inserting comment or blank lines between lines, or read backwards deleting them: the values, the
      sections and whether there is an error stay, and the error keeps pointing at the same line. */
  lemma CommentsAreNeutral(before: string, comments: string, after: string)
    requires WholeLines(before) && WholeLines(comments) && NeutralText(comments)
    requires before == "" ==> !Bom(after)
    ensures Load(before + (comments + after)) == Shifted(Load(before + after), Buffers(comments), Load(before).lineno)
    ensures var x, y := Load(before + after), Load(before + (comments + after));
      y.store == x.store && (y.error == 0 <==> x.error == 0)
  {
    hide ParseLine, Neutral, CStr, Bom;
    var st, d := Load(before), Buffers(comments);
    ParseTextJoin(START, before, after);
    ParseTextJoin(START, before, comments + after);
    ErrorWasRead(START, before);
    LinesCounted(START, before);
    ParseTextJoin(st, comments, after);
    NeutralRun(st, comments);
    ShiftedText(st, after, d, st.lineno);
    assert Shifted(st, d, st.lineno) == st.(lineno := st.lineno + d);
  }

  lemma {:induction false} LinesCounted(st: State, text: string)
    ensures text != "" ==> ParseText(st, text).lineno > st.lineno
    decreases |text|
  {
    if text != "" {
      var n := ChunkLength(text);
      LinesCounted(ParseLine(st, CStr(text[..n], 0)), text[n..]);
    }
  }

  // ----- exactly the neutral lines are harmless

  /** The same values and sections, and an error in both or in neither. */
  predicate SameOutcome(before: string, comments: string, after: string) {
    var x, y := Load(before + after), Load(before + (comments + after));
    y.store == x.store && (y.error == 0 <==> x.error == 0)
  }

  /** The store of a file that says n=v. */
  const ONE: Store := Store(map["=n" := "v"], {""})

  /** No error yet and nothing but n=v; whether n can be continued shows in prev. */
  predicate Clean(st: State) {
    st.lineno > 0 && st.error == 0 && st.store == ONE && (st.prev == "n" || st.prev == "")
  }

  /** More was stored, or more was said of n, than n=v. */
  predicate Grown(store: Store) {
    "=n" in store.values && (|store.values["=n"]| > 1 || exists key :: key in store.values && key != "=n")
  }

  predicate Touched(st: State) { st.error != 0 || Grown(st.store) }

  lemma HandleGrows(store: Store, section: string, name: string, value: string)
    requires store == ONE || Grown(store)
    ensures Grown(Handle(store, section, name, value))
  {
    hide MakeKey;
    var key, after := MakeKey(section, name), Handle(store, section, name, value);
    if key == "=n" {
      if |store.values["=n"]| <= 1 && store != ONE {
        var other :| other in store.values && other != "=n";
        assert other in after.values;
      }
    } else {
      assert key in after.values;
    }
  }

  lemma {:induction false} TouchedStays(st: State, text: string)
    requires Touched(st)
    ensures Touched(ParseText(st, text))
    decreases |text|
  {
    if text != "" {
      var n := ChunkLength(text);
      LineTouches(st, CStr(text[..n], 0));
      hide ParseLine, CStr, Touched;
      TouchedStays(ParseLine(st, CStr(text[..n], 0)), text[n..]);
    }
  }

  lemma LineTouches(st: State, raw: string)
    requires Touched(st)
    ensures Touched(ParseLine(st, raw))
  {
    hide Handle, Grown, Body, HeaderMeaning, PairMeaning, ValueOf;
    var (start, text) := Body(raw, st.lineno == 0);
    var m := MeaningOf(text, start > 0, st.prev);
    if Grown(st.store) {
      if m.Continue? { HandleGrows(st.store, st.section, st.prev, m.value); }
      if m.Pair? { HandleGrows(st.store, st.section, m.name, m.value); }
    }
  }

  /** A line that is not neutral stores something, is an error, or is a title and ends the value of n. */
  lemma LineShows(st: State, raw: string)
    requires Clean(st)
    ensures var r := ParseLine(st, raw);
      Touched(r) || (Clean(r) && (r.prev == "n" <==> st.prev == "n" && Neutral(raw)))
  {
    hide Handle, Grown, HeaderMeaning, PairMeaning, ValueOf, RStrip, LSkip, Indent;
    assert raw[0..] == raw;
    var (start, text) := Body(raw, false);
    var m := MeaningOf(text, start > 0, st.prev);
    HeaderOrBad(text);
    if m.Continue? { HandleGrows(st.store, st.section, st.prev, m.value); }
    if m.Pair? { HandleGrows(st.store, st.section, m.name, m.value); }
  }

  lemma HeaderOrBad(text: string)
    ensures text != "" ==> HeaderMeaning(text).Header? || HeaderMeaning(text).Bad?
    ensures PairMeaning(text).Pair? || PairMeaning(text).Bad?
  {
    hide FindCharsOrComment, RStrip, LSkip, ValueOf;
  }

  lemma {:induction false} TextShows(st: State, text: string)
    requires Clean(st)
    ensures var r := ParseText(st, text);
      Touched(r) || (Clean(r) && (r.prev == "n" <==> st.prev == "n" && NeutralText(text)))
    decreases |text|
  {
    if text != "" {
      var n := ChunkLength(text);
      var raw := CStr(text[..n], 0);
      LineShows(st, raw);
      hide ParseLine, CStr, Touched, Clean, Neutral;
      var next := ParseLine(st, raw);
      if Touched(next) {
        TouchedStays(next, text[n..]);
      } else {
        TextShows(next, text[n..]);
      }
    }
  }

  lemma OneLoaded()
    ensures WholeLines("n=v" + "\n") && Clean(Load("n=v" + "\n")) && Load("n=v" + "\n").prev == "n"
  {
    hide ParseLine, RunLines, CStr;
    assert "n=v" + "\n" + "" == "n=v" + "\n" && "n" + "=" + "v" == "n=v";
    LineTaken(START, "n=v", "");
    PlainRun(START, "n", "v");
    assert MakeKey("", "n") == "=n" by { assert "" + "=" + "n" == "=n" && Lower("=n") == "=n"; }
    assert "" + "v" == "v" && {} + {""} == {""};
  }

  /** A continuation line tells whether n is still open. */
  lemma WordShows(st: State)
    requires Clean(st)
    ensures var r := ParseText(st, " w" + "\n");
      if st.prev == "n" then r.error == 0 && Grown(r.store) else r.error != 0
  {
    hide ParseLine, CStr, Handle, Grown;
    assert " w" + "\n" + "" == " w" + "\n" && " " + "w" + "" == " w";
    LineTaken(st, " w", "");
    if st.prev == "n" {
      MoreRun(st, " ", "w", "");
      HandleGrows(st.store, st.section, st.prev, "w");
    } else {
      WordAloneIsBad(st);
    }
  }

  lemma WordAloneIsBad(st: State)
    requires st.prev == "" && st.lineno > 0
    ensures After(st, " w").error != 0
  {
    BodyIs(" w", false, 1);
    assert " w"[1..] == "w";
    hide Body;
    FindUnique("w", "=:", 1);
    assert MeaningOf("w", true, st.prev) == PairMeaning("w") == Bad;
  }

  /** Lines change nothing wherever they are inserted exactly when every buffer they fill is neutral. */
  lemma ExactlyNeutral(comments: string)
    requires WholeLines(comments)
    ensures (forall before: string, after: string ::
               WholeLines(before) && (before == "" ==> !Bom(after)) ==> SameOutcome(before, comments, after))
            <==> NeutralText(comments)
  {
    hide SameOutcome, NeutralText, WholeLines, Bom;
    if NeutralText(comments) {
      forall before: string, after: string | WholeLines(before) && (before == "" ==> !Bom(after))
        ensures SameOutcome(before, comments, after)
      {
        NeutralIsHarmless(before, comments, after);
      }
    } else {
      var after := NotNeutralShows(comments);
      OneIsWhole();
      assert "n=v" + "\n" != "";
    }
  }

  lemma NeutralIsHarmless(before: string, comments: string, after: string)
    requires WholeLines(before) && WholeLines(comments) && NeutralText(comments)
    requires before == "" ==> !Bom(after)
    ensures SameOutcome(before, comments, after)
  {
    hide ParseText, NeutralText, WholeLines, Bom, Shifted;
    CommentsAreNeutral(before, comments, after);
  }

  lemma OneIsWhole()
    ensures WholeLines("n=v" + "\n")
  {
  }

  lemma NotNeutralShows(comments: string) returns (after: string)
    requires WholeLines(comments) && !NeutralText(comments)
    ensures !SameOutcome("n=v" + "\n", comments, after)
  {
    hide ParseLine, CStr, NeutralText;
    OneLoaded();
    var (before, word) := ("n=v" + "\n", " w" + "\n");
    var st := Load(before);
    TextShows(st, comments);
    var r := ParseText(st, comments);
    if Touched(r) {
      after := "";
      ParseTextJoin(START, before, comments + "");
      assert comments + "" == comments && before + "" == before;
      OneIsNotGrown();
    } else {
      after := word;
      ParseTextJoin(START, before, word);
      ParseTextJoin(START, before, comments + word);
      ParseTextJoin(st, comments, word);
      WordShows(st);
      WordShows(r);
    }
  }

  lemma OneIsNotGrown()
    ensures !Grown(ONE)
  {
  }

  // ----- the two limits, each at an input

  /** A comment line longer than the buffer: what lies beyond it is read as a line. */
  lemma LongCommentLeaks(padding: string)
    requires Plain(padding) && |padding| == 198
    ensures Get(Load(";" + padding + "a=b" + "\n").store, "", "a", "") == "b"
    ensures Get(Load("").store, "", "a", "") == ""
  {
    hide ParseLine, RunLines, CStr, Neutral, MakeKey;
    var head := ";" + padding;
    var st := START.(lineno := 1);
    LongHeadTaken(padding, "a=b" + "\n" + "");
    assert head + "a=b" + "\n" == head + ("a=b" + "\n" + "");
    LineTaken(st, "a=b", "");
    assert "a" + "=" + "b" == "a=b";
    PlainRun(st, "a", "b");
  }

  lemma LongHeadTaken(padding: string, rest: string)
    requires Plain(padding) && |padding| == 198 && rest != ""
    ensures ParseText(START, ";" + padding + rest) == ParseText(START.(lineno := 1), rest)
  {
    hide ParseLine, CStr, Neutral;
    var head := ";" + padding;
    var text := head + rest;
    assert forall k :: 0 <= k < |padding| ==> text[k + 1] == padding[k] && padding[k] in padding;
    FullChunk(text, 0);
    assert text[..MAX_LINE - 1] == head && text[MAX_LINE - 1..] == rest;
    CStrWhole(head);
    HeadIsNeutral(padding);
    NeutralLine(START, head);
  }

  lemma HeadIsNeutral(padding: string)
    ensures Neutral(";" + padding)
  {
    var stripped := RStrip(";" + padding);
    assert stripped[0] == ';' by { assert !IsSpace((";" + padding)[0]); }
    IndentUnique(stripped, 0);
  }

  const MARK: string := "\U{ef}\U{bb}\U{bf}"

  /** A mark at the very start is skipped. */
  lemma MarkSkipped(line: string)
    requires !Bom(line)
    ensures ParseLine(START, MARK + line) == ParseLine(START, line)
  {
    hide RStrip, LSkip, Indent, HeaderMeaning, PairMeaning, Handle;
    assert (MARK + line)[3..] == line && line[0..] == line;
  }

  lemma MarkedFirst()
    ensures Get(Load(MARK + "a=b" + "\n").store, "", "a", "") == "b"
  {
    hide ParseLine, RunLines, CStr, MakeKey, Bom;
    assert MARK + "a=b" + "\n" + "" == MARK + "a=b" + "\n";
    LineTaken(START, MARK + "a=b", "");
    NoMark();
    MarkSkipped("a=b");
    assert "a" + "=" + "b" == "a=b" && "" + "b" == "b";
    PlainRun(START, "a", "b");
  }

  lemma NoMark()
    ensures !Bom("a=b") && Bom(MARK + "a=b" + "\n") && NameOk(MARK + "a")
  {
  }

  lemma MarkedSecond(st: State)
    requires st.lineno > 0 && st.store == EMPTY && st.section == ""
    ensures Get(ParseText(st, MARK + "a=b" + "\n").store, "", "a", "") == ""
  {
    hide ParseLine, RunLines, CStr, MakeKey, Bom, NameOk;
    assert MARK + "a=b" + "\n" + "" == MARK + "a=b" + "\n";
    LineTaken(st, MARK + "a=b", "");
    NoMark();
    assert (MARK + "a") + "=" + "b" == MARK + "a=b";
    PlainRun(st, MARK + "a", "b");
    MakeKeyInjective("", MARK + "a", "", "a");
    assert |MARK + "a"| == 4;
  }

  /** A comment in front of a marked first line makes the mark part of the name. */
  lemma MarkMustComeFirst()
    ensures var (comment, marked) := (";c" + "\n", MARK + "a=b" + "\n");
      && NeutralText(comment) && Bom(marked)
      && Get(Load(marked).store, "", "a", "") == "b"
      && Get(Load(comment + marked).store, "", "a", "") == ""
  {
    hide ParseLine, CStr, Neutral, MakeKey, NeutralText, Get;
    var (comment, marked) := (";c" + "\n", MARK + "a=b" + "\n");
    HeadIsNeutral("c");
    assert ";" + "c" == ";c";
    ShortLineIsNeutral(";c");
    NoMark();
    MarkedFirst();
    ParseTextJoin(START, comment, marked);
    NeutralRun(START, comment);
    MarkedSecond(START.(lineno := Buffers(comment)));
  }
}
