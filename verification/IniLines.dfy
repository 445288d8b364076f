/** What a single line means, with all the blanks and comments it may carry (INIReader.h). */
module IniLines {
  import opened CStrings
  import opened IniText
  import opened IniParser

  predicate Plain(s: string) { '\n' !in s && '\0' !in s }

  predicate Uncommented(s: string) {
    forall i :: 0 < i < |s| && s[i] == ';' ==> !IsSpace(s[i - 1])
  }

  predicate Trimmed(s: string) {
    s != "" ==> !IsSpace(s[0]) && !IsSpace(s[|s| - 1])
  }

  predicate Blank(s: string) {
    forall i :: 0 <= i < |s| ==> IsSpace(s[i]) && s[i] != '\n'
  }

  /** What may follow a value: blanks, or blanks and a comment. */
  predicate TailOk(tail: string) {
    Plain(tail) && (Blank(tail) || CommentAt(tail) < |tail|)
  }

  /** Where a comment starts behind blanks. */
  function CommentAt(tail: string): (k: nat)
    ensures k <= |tail|
    ensures k < |tail| ==> k > 0 && tail[k] == ';' && forall i :: 0 <= i < k ==> IsSpace(tail[i])
  {
    var k := Indent(tail);
    if 0 < k < |tail| && tail[k] == ';' then k else |tail|
  }

  /** Whitespace is what isspace calls so in the C locale. */
  lemma SpaceIs(c: char)
    ensures IsSpace(c) <==> 9 <= c as int <= 13 || c as int == 32
  {
  }

  // ----- lines and buffers

  function Render(lines: seq<string>): string {
    if lines == [] then "" else lines[0] + "\n" + Render(lines[1..])
  }

  /** The state after a line without its newline; a line that fills the buffer counts twice. */
  function After(st: State, line: string): State {
    ParseLine(st, line).(lineno := st.lineno + if |line| == MAX_LINE - 1 then 2 else 1)
  }

  function RunLines(st: State, lines: seq<string>): State
    decreases |lines|
  {
    if lines == [] then st else RunLines(After(st, lines[0]), lines[1..])
  }

  lemma {:induction false} RunLinesJoin(st: State, a: seq<string>, b: seq<string>)
    ensures RunLines(st, a + b) == RunLines(RunLines(st, a), b)
    decreases |a|
  {
    if a == [] {
      assert a + b == b;
    } else {
      assert (a + b)[1..] == a[1..] + b;
      RunLinesJoin(After(st, a[0]), a[1..], b);
    }
  }

  lemma {:induction false} ChunkFromIs(text: string, i: nat, n: nat)
    requires i <= n < |text| && n < MAX_LINE - 1 && text[n] == '\n'
    requires forall k :: i <= k < n ==> text[k] != '\n'
    ensures ChunkFrom(text, i) == n + 1
    decreases n - i
  {
    if i < n { ChunkFromIs(text, i + 1, n); }
  }

  lemma {:induction false} FullChunk(text: string, i: nat)
    requires i < MAX_LINE <= |text| && forall k :: i <= k < MAX_LINE - 1 ==> text[k] != '\n'
    ensures ChunkFrom(text, i) == MAX_LINE - 1
    decreases MAX_LINE - i
  {
    if i < MAX_LINE - 1 {
      FullChunk(text, i + 1);
    }
  }

  lemma CStrWhole(s: string)
    requires '\0' !in s
    ensures CStr(s, 0) == s
  {
    assert forall i :: 0 <= i < |s| ==> s[i] in s;
    assert s[0..|s|] == s;
  }

  /** The newline at the end of a line does not matter. */
  lemma NewlineIgnored(st: State, line: string)
    requires '\n' !in line
    ensures ParseLine(st, line + "\n") == ParseLine(st, line)
  {
    hide MeaningOf, Apply, LSkip, Indent;
    var raw := line + "\n";
    assert Bom(raw) == Bom(line) by { assert |line| == 2 ==> raw[2] == '\n'; }
    var skip := if st.lineno == 0 && Bom(raw) then 3 else 0;
    assert raw[skip..][..|raw[skip..]| - 1] == line[skip..];
  }

  lemma BlankIgnored(st: State)
    requires st.lineno > 0
    ensures ParseLine(st, "\n") == st.(lineno := st.lineno + 1)
  {
    assert "\n"[0..] == "\n";
    RStripUnique("\n", 0);
  }

  lemma LineTaken(st: State, line: string, rest: string)
    requires Plain(line) && |line| <= 199
    ensures ParseText(st, line + "\n" + rest) == ParseText(After(st, line), rest)
  {
    hide ParseLine;
    LineCounted(st, line);
    if |line| < MAX_LINE - 1 {
      ShortLineTaken(st, line, rest);
    } else {
      FullLineTaken(st, line, rest);
      ShortLineTaken(ParseLine(st, line), "", rest);
      assert "" + "\n" == "\n";
      BlankIgnored(ParseLine(st, line));
      NewlineIgnored(ParseLine(st, line), "");
    }
  }

  lemma ShortLineTaken(st: State, line: string, rest: string)
    requires Plain(line) && |line| < MAX_LINE - 1
    ensures ParseText(st, line + "\n" + rest) == ParseText(ParseLine(st, line), rest)
  {
    hide ParseLine, CStr;
    var text, n := line + "\n" + rest, |line|;
    assert forall k :: 0 <= k < n ==> text[k] == line[k] && line[k] in line;
    ChunkFromIs(text, 0, n);
    assert text[..n + 1] == line + "\n" && text[n + 1..] == rest;
    CStrWhole(line + "\n");
    NewlineIgnored(st, line);
  }

  lemma FullLineTaken(st: State, line: string, rest: string)
    requires Plain(line) && |line| == MAX_LINE - 1
    ensures ParseText(st, line + "\n" + rest) == ParseText(ParseLine(st, line), "" + "\n" + rest)
  {
    hide ParseLine, CStr;
    var text, n := line + "\n" + rest, |line|;
    assert forall k :: 0 <= k < n ==> text[k] == line[k] && line[k] in line;
    FullChunk(text, 0);
    assert text[..n] == line && text[n..] == "" + "\n" + rest;
    CStrWhole(line);
  }

  lemma LineCounted(st: State, line: string)
    ensures ParseLine(st, line).lineno == st.lineno + 1
  {
  }

  lemma {:induction false} RenderTaken(st: State, lines: seq<string>)
    requires forall i :: 0 <= i < |lines| ==> Plain(lines[i]) && |lines[i]| <= 199
    ensures ParseText(st, Render(lines)) == RunLines(st, lines)
    decreases |lines|
  {
    if lines != [] {
      LineTaken(st, lines[0], Render(lines[1..]));
      RenderTaken(After(st, lines[0]), lines[1..]);
    }
  }

  // ----- stripping

  lemma StripAppend(a: string, b: string)
    requires a != "" && !IsSpace(a[|a| - 1])
    ensures RStrip(a + b) == a + RStrip(b)
  {
    var r := RStrip(b);
    assert forall i :: |a| + |r| <= i < |a + b| ==> (a + b)[i] == b[i - |a|];
    RStripUnique(a + b, |a| + |r|);
    assert (a + b)[..|a| + |r|] == a + r;
  }

  lemma BlankStrips(b: string)
    requires forall i :: 0 <= i < |b| ==> IsSpace(b[i])
    ensures RStrip(b) == "" && LSkip(b) == ""
  {
    RStripUnique(b, 0);
    IndentUnique(b, |b|);
  }

  lemma SkipAppend(a: string, b: string)
    requires (forall i :: 0 <= i < |a| ==> IsSpace(a[i])) && b != "" && !IsSpace(b[0])
    ensures Indent(a + b) == |a| && LSkip(a + b) == b
  {
    IndentUnique(a + b, |a|);
  }

  lemma TrimmedStays(s: string)
    requires Trimmed(s)
    ensures RStrip(s) == s && LSkip(s) == s
  {
    RStripUnique(s, |s|);
    IndentUnique(s, 0);
    assert s[..|s|] == s && s[0..] == s;
  }

  /** The body of a line with a blank in front or none, and nothing to strip behind. */
  lemma BodyIs(raw: string, first: bool, indent: nat)
    requires first ==> !Bom(raw)
    requires indent < |raw| && !IsSpace(raw[indent]) && !IsSpace(raw[|raw| - 1])
    requires forall i :: 0 <= i < indent ==> IsSpace(raw[i])
    ensures Body(raw, first) == (indent, raw[indent..])
  {
    assert raw[0..] == raw == raw[..|raw|];
    RStripUnique(raw, |raw|);
    IndentUnique(raw, indent);
  }

  // ----- values

  /** A value in front of blanks and a comment is taken without them. */
  lemma ValueIs(text: string, tail: string)
    requires Uncommented(text) && Trimmed(text) && TailOk(tail) && (text == "" ==> Blank(tail))
    ensures ValueOf(RStrip(text + tail)) == text
    ensures text != "" ==> RStrip(text + tail) != "" && RStrip(text + tail)[0] == text[0]
  {
    if text == "" {
      assert text + tail == tail;
      BlankStrips(tail);
      assert ""[..0] == "";
    } else {
      StripAppend(text, tail);
      if Blank(tail) {
        BlankStrips(tail);
        assert text + "" == text;
        UncutValue(text);
      } else {
        CutValue(text, RStrip(tail), CommentAt(tail));
      }
    }
  }

  lemma UncutValue(text: string)
    requires Uncommented(text) && Trimmed(text)
    ensures ValueOf(text) == text
  {
    FindUnique(text, "", |text|);
    TrimmedStays(text);
    assert text[..|text|] == text;
  }

  lemma CutValue(text: string, tail: string, k: nat)
    requires text != "" && Uncommented(text) && Trimmed(text)
    requires 0 < k < |tail| && tail[k] == ';' && forall i :: 0 <= i < k ==> IsSpace(tail[i])
    ensures ValueOf(text + tail) == text
  {
    var (s, at) := (text + tail, |text| + k);
    forall j | 0 <= j < at ensures !StopsAt(s, "", j) {
      if |text| <= j { assert IsSpace(s[j]) && s[j] == tail[j - |text|]; }
    }
    FindUnique(s, "", at);
    assert s[..at] == text + tail[..k];
    StripAppend(text, tail[..k]);
    BlankStrips(tail[..k]);
    assert text + "" == text;
  }

  /** The same behind leading blanks. */
  lemma ValueBehind(before: string, text: string, tail: string)
    requires Blank(before) && Uncommented(text) && Trimmed(text) && TailOk(tail) && (text == "" ==> Blank(tail))
    ensures ValueOf(LSkip(RStrip(before + text + tail))) == text
    ensures text != "" ==> Body(before + text + tail, false) == (|before|, RStrip(text + tail))
  {
    hide ValueOf;
    ValueIs(text, tail);
    var raw := before + text + tail;
    assert raw == before + (text + tail);
    if text == "" {
      assert forall i :: 0 <= i < |raw| ==> IsSpace(raw[i]);
      BlankStrips(raw);
      assert RStrip(text + tail) == LSkip(RStrip(raw)) == "" by {
        assert text + tail == tail;
        BlankStrips(tail);
        BlankStrips("");
      }
    } else {
      StripBehind(before, text + tail);
      SkipAppend(before, RStrip(text + tail));
      assert raw[0..] == raw;
    }
  }

  lemma StripBehind(a: string, b: string)
    requires RStrip(b) != ""
    ensures RStrip(a + b) == a + RStrip(b)
  {
    var r := RStrip(b);
    assert forall i :: |a| + |r| <= i < |a + b| ==> (a + b)[i] == b[i - |a|];
    RStripUnique(a + b, |a| + |r|);
    assert (a + b)[..|a| + |r|] == a + r;
  }

  // ----- the three kinds of line

  predicate NameOk(s: string) {
    Plain(s) && Uncommented(s) && Trimmed(s) && s != "" && s[0] !in ";#[" && '=' !in s && ':' !in s
  }

  /** A name, a separator and a value, with blanks around them and a comment behind. */
  lemma FirstMeans(n: string, gap: string, sep: char, before: string, v: string, tail: string)
    requires NameOk(n) && Blank(gap) && sep in ['=', ':'] && Blank(before)
    requires Uncommented(v) && Trimmed(v) && TailOk(tail) && (v == "" ==> Blank(tail))
    ensures var raw := n + gap + [sep] + before + v + tail;
      && Body(raw, false).0 == 0 && (forall prev :: MeaningOf(Body(raw, false).1, false, prev) == Pair(n, v))
  {
    hide ValueOf, FindCharsOrComment;
    var (raw, front, rest) := (n + gap + [sep] + before + v + tail, n + gap + [sep], before + v + tail);
    assert raw == front + rest && raw[0..] == raw;
    StripAppend(front, rest);
    var (text, k) := (front + RStrip(rest), |n| + |gap|);
    assert text[0] == n[0];
    IndentUnique(text, 0);
    assert Body(raw, false) == (0, text) by { assert text[0..] == text; }
    SeparatorAt(n, gap, text, k);
    ValueBehind(before, v, tail);
    assert text[..k] == n + gap && text[k + 1..] == RStrip(rest);
    StripAppend(n, gap);
    BlankStrips(gap);
    assert n + "" == n;
  }

  lemma SeparatorAt(n: string, gap: string, text: string, k: nat)
    requires NameOk(n) && Blank(gap) && k == |n| + |gap| < |text| && text[..k] == n + gap && text[k] in ['=', ':']
    ensures FindCharsOrComment(text, "=:") == k
  {
    assert forall j :: 0 <= j < k ==> text[j] == (n + gap)[j];
    forall j | 0 <= j < k ensures !StopsAt(text, "=:", j) {
      if j < |n| { assert text[j] == n[j] && n[j] in n; } else { assert text[j] == gap[j - |n|]; }
    }
    FindUnique(text, "=:", k);
  }

  lemma FirstRun(st: State, n: string, gap: string, sep: char, before: string, v: string, tail: string)
    requires NameOk(n) && Blank(gap) && sep in ['=', ':'] && Blank(before)
    requires Uncommented(v) && Trimmed(v) && TailOk(tail) && (v == "" ==> Blank(tail))
    requires st.lineno == 0 ==> !Bom(n + gap + [sep] + before + v + tail)
    ensures var s := After(st, n + gap + [sep] + before + v + tail);
      && s.section == st.section && s.prev == (if |n| > 49 then n[..49] else n) && s.error == st.error
      && s.lineno > 0 && s.store == Handle(st.store, st.section, n, v)
  {
    hide Handle, MeaningOf, Bom;
    var raw := n + gap + [sep] + before + v + tail;
    FirstMeans(n, gap, sep, before, v, tail);
    BodyAnywhere(raw, st.lineno == 0);
    hide Body;
  }

  /** Without a mark it does not matter whether a line is the first. */
  lemma BodyAnywhere(raw: string, first: bool)
    requires first ==> !Bom(raw)
    ensures Body(raw, first) == Body(raw, false)
  {
    hide RStrip, LSkip, Indent, Bom;
  }

  /** The plain form of a first line. */
  lemma PlainRun(st: State, n: string, v: string)
    requires NameOk(n) && Uncommented(v) && Trimmed(v) && (st.lineno == 0 ==> !Bom(n + "=" + v))
    ensures var s := After(st, n + "=" + v);
      && s.section == st.section && s.prev == (if |n| > 49 then n[..49] else n) && s.error == st.error
      && s.lineno > 0 && s.store == Handle(st.store, st.section, n, v)
  {
    hide After, Handle, NameOk, Bom;
    assert n + "" + ['='] + "" + v + "" == n + "=" + v;
    FirstRun(st, n, "", '=', "", v, "");
  }

  /** A line that continues the value of an open name. */
  lemma MoreRun(st: State, before: string, v: string, tail: string)
    requires Blank(before) && before != "" && v != "" && v[0] !in ";#" && st.prev != "" && st.lineno > 0
    requires Uncommented(v) && Trimmed(v) && TailOk(tail)
    ensures var s := After(st, before + v + tail);
      && s.section == st.section && s.prev == st.prev && s.error == st.error && s.lineno > 0
      && s.store == Handle(st.store, st.section, st.prev, v)
  {
    ValueIs(v, tail);
    ValueBehind(before, v, tail);
    hide Body, Handle, ValueOf;
    assert MeaningOf(RStrip(v + tail), true, st.prev) == Continue(v);
  }

  /** A title line; what follows the bracket does not matter, and only 49 characters of the title are kept. */
  lemma TitleRun(st: State, s: string, tail: string)
    requires Plain(s) && Uncommented(s) && ']' !in s
    ensures After(st, "[" + s + "]" + tail) ==
            st.(section := if |s| > 49 then s[..49] else s, prev := "",
                lineno := st.lineno + if |s| + |tail| + 2 == 199 then 2 else 1)
  {
    var (raw, front) := ("[" + s + "]" + tail, "[" + s + "]");
    StripAppend(front, tail);
    var text := front + RStrip(tail);
    IndentUnique(text, 0);
    assert raw[0..] == raw && text[0..] == text && text[0] == '[';
    assert Body(raw, st.lineno == 0) == (0, text);
    TitleMeans(s, text);
    hide Body, HeaderMeaning;
  }

  lemma TitleMeans(s: string, text: string)
    requires Uncommented(s) && ']' !in s && ("[" + s + "]") <= text
    ensures HeaderMeaning(text) == Header(if |s| > 49 then s[..49] else s)
  {
    var rest := text[1..];
    assert text[..|s| + 2] == "[" + s + "]";
    assert forall j :: 0 <= j < |s| ==> rest[j] == text[..|s| + 2][j + 1] == s[j] && s[j] in s;
    assert rest[|s|] == text[..|s| + 2][|s| + 1] == ']';
    assert forall j :: 0 <= j < |s| ==> !StopsAt(rest, "]", j);
    FindUnique(rest, "]", |s|);
    assert rest[..|s|] == s;
  }

  /** Without an open name, leading blanks do not matter. */
  lemma LeadIgnored(st: State, lead: string, line: string)
    requires Blank(lead) && st.prev == "" && st.lineno > 0
    ensures ParseLine(st, lead + line) == ParseLine(st, line)
  {
    assert (lead + line)[0..] == lead + line && line[0..] == line;
    assert LSkip(RStrip(lead + line)) == LSkip(RStrip(line)) by {
      if RStrip(line) == "" {
        assert forall i :: 0 <= i < |line| ==> IsSpace(line[i]);
        BlankStrips(lead + line);
        BlankStrips("");
      } else {
        StripBehind(lead, line);
        LSkipBehind(lead, RStrip(line));
      }
    }
    hide RStrip, LSkip, Indent, HeaderMeaning, PairMeaning;
  }

  lemma LSkipBehind(a: string, b: string)
    requires forall i :: 0 <= i < |a| ==> IsSpace(a[i])
    ensures LSkip(a + b) == LSkip(b)
  {
    var k := Indent(b);
    assert forall i :: 0 <= i < |a| + k ==> IsSpace((a + b)[i]);
    IndentUnique(a + b, |a| + k);
  }

  // ----- errors

  /** A ';' behind whitespace somewhere in s[from..to_]. */
  predicate CommentIn(s: string, from: nat, to_: nat)
    requires to_ <= |s|
  {
    exists j :: from < j < to_ && s[j] == ';' && IsSpace(s[j - 1])
  }

  /** A line that starts a title is bad exactly when no ']' comes before a comment. */
  lemma BadTitle(text: string)
    requires text != ""
    ensures HeaderMeaning(text) == Bad <==>
            !(exists i :: 1 <= i < |text| && text[i] == ']' && !CommentIn(text, 1, i))
  {
    var (rest, end) := (text[1..], FindCharsOrComment(text[1..], "]"));
    assert forall j :: 0 <= j < end ==> !StopsAt(rest, "]", j) && rest[j] == text[j + 1];
    if end < |rest| && rest[end] == ']' {
      assert text[end + 1] == ']' && !CommentIn(text, 1, end + 1);
    }
    if end < |rest| && rest[end] != ']' {
      assert text[end + 1] == ';' && IsSpace(text[end]) && end > 0;
    }
  }

  /** Any other line is bad exactly when no '=' or ':' comes before a comment. */
  lemma BadPair(text: string)
    ensures PairMeaning(text) == Bad <==>
            !(exists i :: 0 <= i < |text| && text[i] in ['=', ':'] && !CommentIn(text, 0, i))
  {
    var end := FindCharsOrComment(text, "=:");
    forall j | 0 <= j < end
      ensures text[j] !in ['=', ':'] && !(j > 0 && text[j] == ';' && IsSpace(text[j - 1]))
    {
      assert !StopsAt(text, "=:", j);
    }
    if end < |text| && text[end] in ['=', ':'] {
      assert !CommentIn(text, 0, end);
    }
    if end < |text| && text[end] !in ['=', ':'] {
      assert end > 0 && text[end] == ';' && IsSpace(text[end - 1]);
    }
  }

  /** What a line of the file means where it stands. */
  function Meant(st: State, raw: string): Meaning {
    var (start, text) := Body(raw, st.lineno == 0);
    MeaningOf(text, start > 0, st.prev)
  }

  /** The k-th buffer from here on is bad where it stands. */
  predicate BadAt(st: State, text: string, k: nat)
    decreases |text|
  {
    text != "" &&
    var (n, raw) := (ChunkLength(text), CStr(text[..ChunkLength(text)], 0));
    if k == 0 then Meant(st, raw) == Bad else BadAt(ParseLine(st, raw), text[n..], k - 1)
  }

  /** The error reported is the number of the first bad line, and there is none without one. */
  lemma {:induction false} FirstBadReported(st: State, text: string)
    requires st.error == 0
    ensures var e := ParseText(st, text).error;
      if e == 0 then forall k: nat :: !BadAt(st, text, k)
      else && st.lineno < e && BadAt(st, text, e - st.lineno - 1)
           && forall k: nat :: k < e - st.lineno - 1 ==> !BadAt(st, text, k)
    decreases |text|
  {
    if text != "" {
      hide CStr, Body, MeaningOf, Handle;
      var n := ChunkLength(text);
      var raw := CStr(text[..n], 0);
      var next := ParseLine(st, raw);
      assert next.lineno == st.lineno + 1;
      if Meant(st, raw) == Bad {
        ErrorStays(next, text[n..]);
      } else {
        FirstBadReported(next, text[n..]);
        forall k: nat | k > 0 ensures BadAt(st, text, k) == BadAt(next, text[n..], k - 1) {
        }
      }
    }
  }

  lemma {:induction false} ErrorStays(st: State, text: string)
    requires st.error != 0
    ensures ParseText(st, text).error == st.error
    decreases |text|
  {
    if text != "" {
      hide CStr, Body, MeaningOf, Handle;
      var n := ChunkLength(text);
      ErrorStays(ParseLine(st, CStr(text[..n], 0)), text[n..]);
    }
  }
}
