/** The INI parser and the reader it fills (INIReader.h). */
module IniParser {
  import opened CStrings
  import opened IniText
  import opened Machine

  const MAX_LINE := 200

  // ----- the reader's store

  datatype Store = Store(values: map<string, string>, sections: set<string>)

  const EMPTY: Store := Store(map[], {})

  function ToLower(c: char): char {
    if 'A' <= c <= 'Z' then c - 'A' + 'a' else c
  }

  function Lower(s: string): (r: string)
    ensures |r| == |s|
  {
    seq(|s|, i requires 0 <= i < |s| => ToLower(s[i]))
  }

  function MakeKey(section: string, name: string): string {
    Lower(section + "=" + name)
  }

  /** ValueHandler: a key's values are joined by newlines. */
  function Handle(st: Store, section: string, name: string, value: string): Store {
    var key := MakeKey(section, name);
    var before := if key in st.values then st.values[key] else "";
    Store(st.values[key := (if before == "" then "" else before + "\n") + value], st.sections + {section})
  }

  function Get(st: Store, section: string, name: string, default_: string): string {
    var key := MakeKey(section, name);
    if key in st.values then st.values[key] else default_
  }

  // ----- one line

  datatype Meaning =
    Nothing | Continue(value: string) | Header(section: string) | Pair(name: string, value: string) | Bad

  /** The text of a value up to an inline comment, stripped. */
  function ValueOf(s: string): string {
    RStrip(s[..FindCharsOrComment(s, "")])
  }

  /** A line that starts with '['. */
  function HeaderMeaning(text: string): Meaning
    requires text != ""
  {
    var end := FindCharsOrComment(text[1..], "]");
    if end < |text| - 1 && text[1..][end] == ']' then Header(Truncated(text[1..][..end])) else Bad
  }

  /** A line that should hold a name and a value. */
  function PairMeaning(text: string): Meaning {
    var end := FindCharsOrComment(text, "=:");
    if end < |text| && (text[end] == '=' || text[end] == ':') then
      Pair(RStrip(text[..end]), ValueOf(LSkip(text[end + 1..])))
    else Bad
  }

  function MeaningOf(text: string, indented: bool, prev: string): Meaning {
    if text == "" || text[0] == ';' || text[0] == '#' then Nothing
    else if prev != "" && indented then Continue(ValueOf(text))
    else if text[0] == '[' then HeaderMeaning(text)
    else PairMeaning(text)
  }

  predicate Bom(s: string) {
    |s| >= 3 && s[0] == '\U{ef}' && s[1] == '\U{bb}' && s[2] == '\U{bf}'
  }

  /** Where the text of a line starts, and the text, both ends stripped. */
  function Body(raw: string, first: bool): (r: (nat, string)) {
    var skip := if first && Bom(raw) then 3 else 0;
    var stripped := RStrip(raw[skip..]);
    (skip + Indent(stripped), LSkip(stripped))
  }

  datatype State = State(section: string, prev: string, lineno: nat, error: nat, store: Store)

  const START: State := State("", "", 0, 0, EMPTY)

  function Apply(st: State, m: Meaning): State {
    match m
    case Nothing => st
    case Continue(value) => st.(store := Handle(st.store, st.section, st.prev, value))
    case Header(section) => st.(section := section, prev := "")
    case Pair(name, value) => st.(prev := Truncated(name), store := Handle(st.store, st.section, name, value))
    case Bad => st.(error := if st.error == 0 then st.lineno else st.error)
  }

  function ParseLine(st: State, raw: string): State {
    var (start, text) := Body(raw, st.lineno == 0);
    Apply(st.(lineno := st.lineno + 1), MeaningOf(text, start > 0, st.prev))
  }

  // ----- the whole text

  /** How many characters fgets takes: up to a newline, at most MAX_LINE - 1. */
  function ChunkLength(text: string): (n: nat)
    ensures n <= |text| && n < MAX_LINE
    ensures text != "" ==> n > 0
  {
    ChunkFrom(text, 0)
  }

  function ChunkFrom(text: string, i: nat): (n: nat)
    requires i <= |text| && i < MAX_LINE
    ensures i <= n <= |text| && n < MAX_LINE
    ensures i < |text| && i < MAX_LINE - 1 ==> n > i
    decreases |text| - i
  {
    if i == |text| || i == MAX_LINE - 1 then i
    else if text[i] == '\n' then i + 1
    else ChunkFrom(text, i + 1)
  }

  function ParseText(st: State, text: string): State
    decreases |text|
  {
    if text == "" then st
    else
      var n := ChunkLength(text);
      ParseText(ParseLine(st, CStr(text[..n], 0)), text[n..])
  }

  /** What loading a text leaves in a reader. */
  function Load(text: string): State { ParseText(START, text) }

  // ----- the implementation

  class Reader {
    var error: int
    var values: map<string, string>
    var sections: set<string>

    ghost function View(): Store
      reads this
    {
      Store(values, sections)
    }

    /** Parses a file, or notes that it could not be opened. */
    constructor (file: Option<string>)
      ensures file.None? ==> error == -1 && View() == EMPTY
      ensures file.Some? ==> error == Load(file.value).error && View() == Load(file.value).store
    {
      values, sections, error := map[], {}, -1;
      new;
      if file.Some? {
        var e := ParseStream(file.value);
        error := e;
      }
    }

    method ValueHandler(section: string, name: string, value: string)
      modifies this`values, this`sections
      ensures View() == Handle(old(View()), section, name, value)
    {
      var key := MakeKey(section, name);
      if key !in values { values := values[key := ""]; }
      if |values[key]| > 0 { values := values[key := values[key] + "\n"]; }
      values := values[key := values[key] + value];
      sections := sections + {section};
    }

    method Lookup(section: string, name: string, default_: string) returns (r: string)
      ensures r == Get(View(), section, name, default_)
    {
      var key := MakeKey(section, name);
      r := if key in values then values[key] else default_;
    }

    method ParseStream(text: string) returns (error: nat)
      modifies this`values, this`sections
      ensures var r := ParseText(State("", "", 0, 0, old(View())), text);
        error == r.error && View() == r.store
    {
      var p := new Parser();
      var rest := text;
      while rest != ""
        invariant p.Valid() && fresh(p) && fresh(p.line) && fresh(p.section) && fresh(p.prevName)
        invariant ParseText(p.View(View()), rest) == ParseText(State("", "", 0, 0, old(View())), text)
        decreases |rest|
      {
        var n := p.Fgets(rest);
        p.DoLine(this);
        rest := rest[n..];
      }
      error := p.error;
    }
  }

  /** The parser's buffers and counters. */
  class Parser {
    const line: array<char>
    const section: array<char>
    const prevName: array<char>
    var lineno: nat
    var error: nat

    ghost predicate Valid()
      reads this, section, prevName
    {
      && line.Length == MAX_LINE && section.Length == 50 && prevName.Length == 50
      && line != section && line != prevName && section != prevName
      && Terminated(section[..], 0) && Terminated(prevName[..], 0)
    }

    ghost function View(store: Store): State
      requires Valid()
      reads this, section, prevName
    {
      State(CStr(section[..], 0), CStr(prevName[..], 0), lineno, error, store)
    }

    constructor ()
      ensures Valid() && fresh(line) && fresh(section) && fresh(prevName)
      ensures forall s :: View(s) == State("", "", 0, 0, s)
    {
      line := new char[MAX_LINE](_ => '\0');
      section := new char[50](_ => '\0');
      prevName := new char[50](_ => '\0');
      lineno, error := 0, 0;
      new;
      CStrIs(section[..], 0, "");
      CStrIs(prevName[..], 0, "");
    }

    /** fgets: fills the line buffer from the front of the text. */
    method Fgets(text: string) returns (n: nat)
      requires Valid() && text != ""
      modifies line
      ensures Valid() && n == ChunkLength(text)
      ensures Terminated(line[..], 0) && CStr(line[..], 0) == CStr(text[..n], 0)
    {
      n := 0;
      var more := true;
      while more
        invariant n <= |text| && n < MAX_LINE
        invariant more ==> ChunkFrom(text, n) == ChunkLength(text)
        invariant !more ==> n == ChunkLength(text)
        invariant forall i :: 0 <= i < n ==> line[i] == text[i]
        decreases |text| - n, more
      {
        if n == |text| || n == MAX_LINE - 1 {
          more := false;
        } else {
          line[n] := text[n];
          more := text[n] != '\n';
          n := n + 1;
        }
      }
      line[n] := '\0';
      ChunkInBuffer(line[..], text[..n]);
    }

    /** The value at p: cut at an inline comment and stripped. */
    method TakeValue(p: nat)
      requires Valid() && Terminated(line[..], p)
      modifies line
      ensures Valid() && line[..p] == old(line[..p])
      ensures Terminated(line[..], p) && CStr(line[..], p) == ValueOf(old(CStr(line[..], p)))
    {
      ghost var text := CStr(line[..], p);
      var end := FindAt(line, p, "");
      Cut(p, end);
      assert CStr(line[..], p) == text[..end - p];
      RStripAt(line, p);
    }

    /** Stores a terminator at end unless one is there. */
    method Cut(p: nat, end: nat)
      requires Valid() && Terminated(line[..], p) && p <= end <= p + |CStr(line[..], p)|
      modifies line
      ensures Valid() && line[..p] == old(line[..p])
      ensures Terminated(line[..], p) && CStr(line[..], p) == old(CStr(line[..], p))[..end - p]
      ensures FindNul(line[..], p) == end
      ensures end < p + |old(CStr(line[..], p))| ==>
        Terminated(line[..], end + 1) && CStr(line[..], end + 1) == old(CStr(line[..], p))[end + 1 - p..]
    {
      ghost var s := line[..];
      if line[end] != '\0' {
        CutAt(s, p, end - p);
        line[end] := '\0';
        assert line[..] == s[end := '\0'];
        FindNulUnique(line[..], p, end);
      }
    }

    /** A copy of the C string at p, as the handler's std::string arguments are. */
    static method Text(buffer: array<char>, p: nat) returns (text: string)
      requires Terminated(buffer[..], p)
      ensures text == CStr(buffer[..], p)
    {
      ghost var n := FindNul(buffer[..], p);
      text := "";
      while buffer[p + |text|] != '\0'
        invariant p + |text| <= n && text == buffer[p..p + |text|]
        decreases n - p - |text|
      {
        text := text + [buffer[p + |text|]];
      }
    }

    method NoteError()
      requires Valid()
      modifies this`error
      ensures Valid() && forall s :: View(s) == Apply(old(View(s)), Bad)
    {
      if error == 0 { error := lineno; }
    }

    method DoContinue(reader: Reader, p: nat)
      requires Valid() && Terminated(line[..], p)
      modifies line, reader`values, reader`sections
      ensures Valid()
      ensures View(reader.View()) == Apply(old(View(reader.View())), Continue(ValueOf(old(CStr(line[..], p)))))
    {
      hide ValueOf;
      TakeValue(p);
      var s := Text(section, 0);
      var n := Text(prevName, 0);
      var v := Text(line, p);
      reader.ValueHandler(s, n, v);
    }

    method DoHeader(p: nat, ghost store: Store)
      requires Valid() && Terminated(line[..], p) && CStr(line[..], p) != ""
      modifies line, section, prevName, this`error
      ensures Valid()
      ensures View(store) == Apply(old(View(store)), HeaderMeaning(old(CStr(line[..], p))))
    {
      ghost var text := CStr(line[..], p);
      TailOf(line[..], p, 1);
      var end := FindAt(line, p + 1, "]");
      if line[end] == ']' {
        Cut(p + 1, end);
        StrNCpy0(section, line, p + 1);
        prevName[0] := '\0';
        CStrIs(prevName[..], 0, "");
      } else {
        NoteError();
      }
    }

    method DoPair(reader: Reader, p: nat)
      requires Valid() && Terminated(line[..], p)
      modifies line, prevName, this`error, reader`values, reader`sections
      ensures Valid()
      ensures View(reader.View()) == Apply(old(View(reader.View())), PairMeaning(old(CStr(line[..], p))))
    {
      hide CStr, FindNul, ValueOf, LSkip, RStrip, Apply, Handle;
      var end := FindAt(line, p, "=:");
      CharOf(line[..], p, end - p);
      if line[end] == '=' || line[end] == ':' {
        DoAssignment(reader, p, end);
      } else {
        NoteError();
      }
    }

    /** A pair whose separator is at end. */
    method DoAssignment(reader: Reader, p: nat, end: nat)
      requires Valid() && Terminated(line[..], p) && p <= end < p + |CStr(line[..], p)|
      modifies line, prevName, reader`values, reader`sections
      ensures Valid()
      ensures var text := old(CStr(line[..], p));
        View(reader.View()) == Apply(old(View(reader.View())),
          Pair(RStrip(text[..end - p]), ValueOf(LSkip(text[end - p + 1..]))))
    {
      hide CStr, FindNul, RStrip, ValueOf, LSkip, Handle;
      Cut(p, end);
      ghost var cut := line[..];
      RStripAt(line, p);
      SameTail(cut, line[..], end);
      var value := LSkipAt(line, end + 1);
      ghost var stripped := line[..];
      TakeValue(value);
      SameHead(stripped, line[..], p, value);
      StrNCpy0(prevName, line, p);
      var s := Text(section, 0);
      var n := Text(line, p);
      var v := Text(line, value);
      reader.ValueHandler(s, n, v);
    }

    /** The stripped text of a line, wherever it starts. */
    method DoText(reader: Reader, p: nat)
      requires Valid() && Terminated(line[..], p)
      modifies this`error, line, section, prevName, reader`values, reader`sections
      ensures Valid()
      ensures View(reader.View()) == Apply(old(View(reader.View())),
        MeaningOf(old(CStr(line[..], p)), p > 0, old(CStr(prevName[..], 0))))
    {
      hide CStr, FindNul, ValueOf, HeaderMeaning, PairMeaning, Handle;
      ghost var text := CStr(line[..], p);
      CharOf(line[..], p, 0);
      CharOf(prevName[..], 0, 0);
      if line[p] == ';' || line[p] == '#' {
      } else if prevName[0] != '\0' && line[p] != '\0' && p > 0 {
        DoContinue(reader, p);
      } else if line[p] == '[' {
        DoHeader(p, reader.View());
      } else if line[p] != '\0' {
        DoPair(reader, p);
      }
    }

    /** One line: the buffer holds it, and the parser and the reader take one step. */
    method DoLine(reader: Reader)
      requires Valid() && Terminated(line[..], 0)
      modifies this`lineno, this`error, line, section, prevName, reader`values, reader`sections
      ensures Valid()
      ensures View(reader.View()) == ParseLine(old(View(reader.View())), old(CStr(line[..], 0)))
    {
      hide CStr, FindNul, LSkip, RStrip, Apply, MeaningOf;
      ghost var raw := CStr(line[..], 0);
      lineno := lineno + 1;
      var start := 0;
      BomAt(line[..]);
      if lineno == 1 && line[0] == '\U{ef}' && line[1] == '\U{bb}' && line[2] == '\U{bf}' {
        start := 3;
        TailOf(line[..], 0, 3);
      }
      RStripAt(line, start);
      start := LSkipAt(line, start);
      assert raw[0..] == raw;
      assert Body(raw, old(lineno) == 0) == (start, CStr(line[..], start));
      DoText(reader, start);
    }
  }

  lemma BomAt(s: string)
    requires Terminated(s, 0) && |s| > 2
    ensures Bom(CStr(s, 0)) == (s[0] == '\U{ef}' && s[1] == '\U{bb}' && s[2] == '\U{bf}')
  {
    if s[0] == '\U{ef}' && s[1] == '\U{bb}' && s[2] == '\U{bf}' {
      assert FindNul(s, 0) > 2;
    }
  }

  lemma SameHead(s: string, t: string, p: nat, q: nat)
    requires |s| == |t| && p <= q <= |s| && s[..q] == t[..q] && FindNul(s, p) < q
    ensures Terminated(t, p) && CStr(t, p) == CStr(s, p)
  {
    var n := FindNul(s, p);
    assert forall i :: 0 <= i <= n ==> s[i] == s[..q][i] == t[..q][i] == t[i];
    FindNulUnique(t, p, n);
    assert s[p..n] == t[p..n];
  }

  lemma SameTail(s: string, t: string, p: nat)
    requires |s| == |t| && p < |s| && s[p..] == t[p..] && Terminated(s, p + 1)
    ensures Terminated(t, p + 1) && CStr(t, p + 1) == CStr(s, p + 1) && t[p] == s[p]
  {
    var n := FindNul(s, p + 1);
    assert forall i :: p <= i < |s| ==> s[i] == s[p..][i - p] == t[p..][i - p] == t[i];
    FindNulUnique(t, p + 1, n);
    assert s[p + 1..n] == t[p + 1..n];
  }

  lemma ChunkInBuffer(line: string, chunk: string)
    requires |chunk| < |line| && line[..|chunk|] == chunk && line[|chunk|] == '\0'
    ensures Terminated(line, 0) && CStr(line, 0) == CStr(chunk, 0)
  {
    var n := FindNul(chunk, 0);
    assert forall k :: 0 <= k < n ==> line[k] == chunk[k];
    assert n < |chunk| ==> line[n] == chunk[n];
    FindNulUnique(line, 0, n);
    assert line[0..n] == chunk[0..n];
  }
}
