/** Parsing undoes rendering, with all the blanks and comments a file may carry (INIReader.h). */
module IniRoundTrip {
  import opened CStrings
  import opened IniText
  import opened IniParser
  import opened IniLines

  /** One line of a value, with the blanks before it and the blanks and comment behind it. */
  datatype Segment = Segment(before: string, text: string, tail: string)

  /** What a configuration file says: section titles, and names with one or more lines of value. */
  datatype Item =
    Title(section: string, tail: string) | Assign(name: string, gap: string, sep: char, segments: seq<Segment>)

  /** A name with its section and its value. */
  datatype Entry = Entry(section: string, name: string, value: string)

  function Join(segments: seq<Segment>): string
    requires |segments| > 0
  {
    var last := segments[|segments| - 1].text;
    if |segments| == 1 then last else Join(segments[..|segments| - 1]) + "\n" + last
  }

  function Entries(items: seq<Item>, section: string): seq<Entry>
    requires forall i :: 0 <= i < |items| ==> ItemOk(items[i])
  {
    if items == [] then []
    else match items[0]
      case Title(s, _) => Entries(items[1..], s)
      case Assign(n, _, _, segments) =>
        assert ItemOk(items[0]);
        [Entry(section, n, Join(segments))] + Entries(items[1..], section)
  }

  // ----- the file

  function Line(seg: Segment): string { seg.before + seg.text + seg.tail }

  function FirstLine(n: string, gap: string, sep: char, seg: Segment): string {
    n + gap + [sep] + seg.before + seg.text + seg.tail
  }

  function ItemLines(item: Item): seq<string>
    requires item.Assign? ==> |item.segments| > 0
  {
    match item
    case Title(s, tail) => ["[" + s + "]" + tail]
    case Assign(n, gap, sep, segments) => [FirstLine(n, gap, sep, segments[0])] + MoreLines(segments)
  }

  function MoreLines(segments: seq<Segment>): seq<string>
    requires |segments| > 0
  {
    if |segments| == 1 then []
    else MoreLines(segments[..|segments| - 1]) + [Line(segments[|segments| - 1])]
  }

  function Lines(items: seq<Item>): seq<string>
    requires forall i :: 0 <= i < |items| ==> ItemOk(items[i])
  {
    if items == [] then []
    else
      assert ItemOk(items[0]);
      ItemLines(items[0]) + Lines(items[1..])
  }

  // ----- the lexical limits

  predicate SegmentOk(seg: Segment) {
    && Blank(seg.before) && Plain(seg.text) && Uncommented(seg.text) && Trimmed(seg.text)
    && TailOk(seg.tail) && (seg.text == "" ==> Blank(seg.tail))
  }

  /** What a continuation line can hold. */
  predicate MoreOk(seg: Segment) {
    SegmentOk(seg) && seg.before != "" && seg.text != "" && seg.text[0] !in ";#" && |Line(seg)| <= 199
  }

  predicate SegmentsOk(name: string, gap: string, sep: char, segments: seq<Segment>) {
    && |segments| > 0 && SegmentOk(segments[0]) && |FirstLine(name, gap, sep, segments[0])| <= 199
    && (|segments| > 1 ==> |name| <= 49 && segments[0].text != "")
    && (forall k :: 0 < k < |segments| ==> MoreOk(segments[k]))
  }

  predicate ItemOk(item: Item) {
    match item
    case Title(s, tail) =>
      Plain(s) && Uncommented(s) && ']' !in s && |s| <= 49 && Plain(tail) && |s| + |tail| + 2 <= 199
    case Assign(n, gap, sep, segments) =>
      NameOk(n) && Blank(gap) && sep in ['=', ':'] && SegmentsOk(n, gap, sep, segments)
  }

  /** Two characters that are equal, or the capital and the small form of one of the 26 letters. */
  predicate SameLetter(c: char, d: char) {
    || c == d || ('A' <= c <= 'Z' && d as int == c as int + 32) || ('A' <= d <= 'Z' && c as int == d as int + 32)
  }

  predicate CaseVariant(s: string, t: string) {
    |s| == |t| && forall i :: 0 <= i < |s| ==> SameLetter(s[i], t[i])
  }

  lemma LowerAgrees(s: string, t: string)
    ensures Lower(s) == Lower(t) <==> CaseVariant(s, t)
  {
    assert |Lower(s)| == |s| && |Lower(t)| == |t|;
    if |s| == |t| {
      assert forall i :: 0 <= i < |s| ==> Lower(s)[i] == ToLower(s[i]) && Lower(t)[i] == ToLower(t[i]);
      assert forall i :: 0 <= i < |s| ==> (ToLower(s[i]) == ToLower(t[i]) <==> SameLetter(s[i], t[i]));
    }
  }

  /** Two spellings of one name in one section, whatever their case. */
  predicate SameName(section: string, name: string, section': string, name': string) {
    CaseVariant(section, section') && CaseVariant(name, name')
  }

  predicate Distinct(entries: seq<Entry>) {
    forall i, j :: 0 <= i < j < |entries| ==>
      !SameName(entries[i].section, entries[i].name, entries[j].section, entries[j].name)
  }

  predicate StartsWithBom(item: Item)
    requires item.Assign? ==> |item.segments| > 0
  {
    Bom(ItemLines(item)[0])
  }

  predicate Lexical(items: seq<Item>) {
    && (forall i :: 0 <= i < |items| ==> ItemOk(items[i]))
    && Distinct(Entries(items, ""))
    && (items != [] ==> ItemOk(items[0]) && !StartsWithBom(items[0]))
  }

  // ----- keys

  /** Without '=' in the names, keys agree exactly when section and name agree up to case. */
  lemma MakeKeyInjective(section: string, name: string, section': string, name': string)
    requires '=' !in name && '=' !in name'
    ensures MakeKey(section, name) == MakeKey(section', name') <==> SameName(section, name, section', name')
  {
    KeyParts(section, name);
    KeyParts(section', name');
    LowerAgrees(section, section');
    LowerAgrees(name, name');
    hide CaseVariant;
    var k, k', m, m' := MakeKey(section, name), MakeKey(section', name'), |section|, |section'|;
    if k == k' {
      assert m == m' && k[m + 1..] == k'[m' + 1..];
    }
    if SameName(section, name, section', name') {
      assert k == Lower(section) + "=" + Lower(name) == k';
    }
  }

  /** The last '=' of a key parts the section from the name. */
  lemma KeyParts(section: string, name: string)
    requires '=' !in name
    ensures var k, m := MakeKey(section, name), |section|;
      && |k| == m + 1 + |name| && k[..m] == Lower(section) && k[m] == '=' && k[m + 1..] == Lower(name)
      && forall i :: m < i < |k| ==> k[i] != '='
  {
    var k, m := MakeKey(section, name), |section|;
    forall i | m < i < |k| ensures k[i] != '=' {
      assert k[i] == ToLower(name[i - m - 1]) && name[i - m - 1] in name;
    }
  }

  /** The key of a section and a name belongs to no other exactly when neither of them has '='. */
  lemma KeyIsUnique(section: string, name: string)
    ensures (forall section': string, name': string ::
               MakeKey(section, name) == MakeKey(section', name') ==> SameName(section, name, section', name'))
            <==> '=' !in section && '=' !in name
  {
    if '=' in name {
      var i :| 0 <= i < |name| && name[i] == '=';
      var (section', name') := (section + "=" + name[..i], name[i + 1..]);
      assert name == name[..i] + "=" + name';
      assert section' + "=" + name' == section + "=" + name;
      assert !SameName(section, name, section', name');
    } else if '=' in section {
      var i :| 0 <= i < |section| && section[i] == '=';
      var (section', name') := (section[..i], section[i + 1..] + "=" + name);
      assert section == section' + "=" + section[i + 1..];
      assert section' + "=" + name' == section + "=" + name;
      assert !SameName(section, name, section', name');
    } else {
      forall section': string, name': string | MakeKey(section, name) == MakeKey(section', name')
        ensures SameName(section, name, section', name')
      {
        SingleSeparator(section, name, section', name');
      }
    }
  }

  lemma SingleSeparator(section: string, name: string, section': string, name': string)
    requires '=' !in section && '=' !in name && MakeKey(section, name) == MakeKey(section', name')
    ensures SameName(section, name, section', name')
  {
    KeyParts(section, name);
    var (k, m, m') := (MakeKey(section, name), |section|, |section'|);
    assert k[m'] == '=';
    forall i | 0 <= i < m ensures k[i] != '=' {
      assert k[i] == ToLower(section[i]) && section[i] in section;
    }
    assert m == m';
    assert Lower(section') == MakeKey(section', name')[..m'] && Lower(name') == MakeKey(section', name')[m' + 1..];
    LowerAgrees(section, section');
    LowerAgrees(name, name');
  }

  // ----- one item

  /** All the lines of one value. */
  lemma {:induction false} SegmentsRun(st: State, n: string, gap: string, sep: char, segments: seq<Segment>)
    requires NameOk(n) && Blank(gap) && sep in ['=', ':'] && SegmentsOk(n, gap, sep, segments)
    requires st.lineno == 0 ==> !Bom(FirstLine(n, gap, sep, segments[0]))
    requires MakeKey(st.section, n) !in st.store.values
    ensures var s := RunLines(st, [FirstLine(n, gap, sep, segments[0])] + MoreLines(segments));
      && s.section == st.section && s.prev == (if |n| > 49 then n[..49] else n) && s.error == st.error && s.lineno > 0
      && s.store == Put(st.store, Entry(st.section, n, Join(segments)))
      && (|segments| > 1 ==> Join(segments) != "")
    decreases |segments|
  {
    hide MakeKey, After, Bom, NameOk, Blank, TailOk, Uncommented, Trimmed, Plain;
    var (seg, last) := (segments[0], segments[|segments| - 1]);
    var first := [FirstLine(n, gap, sep, seg)];
    if |segments| == 1 {
      FirstRun(st, n, gap, sep, seg.before, seg.text, seg.tail);
      assert "" + seg.text == seg.text;
      assert first + MoreLines(segments) == first;
      assert RunLines(st, first) == RunLines(After(st, first[0]), []);
    } else {
      var front := segments[..|segments| - 1];
      SegmentsRun(st, n, gap, sep, front);
      var mid := RunLines(st, first + MoreLines(front));
      assert first + MoreLines(segments) == first + MoreLines(front) + [Line(last)];
      RunLinesJoin(st, first + MoreLines(front), [Line(last)]);
      assert RunLines(mid, [Line(last)]) == RunLines(After(mid, Line(last)), []);
      assert MoreOk(last);
      NameIsNotEmpty(n);
      MoreRun(mid, last.before, last.text, last.tail);
      var values, sections := st.store.values, st.store.sections;
      var key := MakeKey(st.section, n);
      assert values[key := Join(front)][key := Join(segments)] == values[key := Join(segments)];
      assert sections + {st.section} + {st.section} == sections + {st.section};
    }
  }

  lemma NameIsNotEmpty(n: string)
    requires NameOk(n)
    ensures n != ""
  {
  }

  // ----- the whole file

  function Put(st: Store, e: Entry): Store {
    Store(st.values[MakeKey(e.section, e.name) := e.value], st.sections + {e.section})
  }

  function Puts(st: Store, entries: seq<Entry>): Store
    decreases |entries|
  {
    if entries == [] then st else Puts(Put(st, entries[0]), entries[1..])
  }

  predicate Unused(st: Store, entries: seq<Entry>) {
    forall i :: 0 <= i < |entries| ==> MakeKey(entries[i].section, entries[i].name) !in st.values
  }

  predicate DistinctKeys(entries: seq<Entry>) {
    forall i, j :: 0 <= i < j < |entries| ==>
      MakeKey(entries[i].section, entries[i].name) != MakeKey(entries[j].section, entries[j].name)
  }

  /** The next entry takes its own key and leaves the others unused. */
  lemma PutNext(st: Store, entries: seq<Entry>)
    requires entries != [] && Unused(st, entries) && DistinctKeys(entries)
    ensures Unused(Put(st, entries[0]), entries[1..]) && DistinctKeys(entries[1..])
  {
    hide MakeKey;
    forall i | 0 <= i < |entries| - 1
      ensures MakeKey(entries[1..][i].section, entries[1..][i].name) !in Put(st, entries[0]).values
    {
      assert entries[1..][i] == entries[i + 1];
    }
  }

  lemma {:induction false} ItemsRun(st: State, items: seq<Item>)
    requires forall i :: 0 <= i < |items| ==> ItemOk(items[i])
    requires Unused(st.store, Entries(items, st.section)) && DistinctKeys(Entries(items, st.section))
    requires st.lineno == 0 && items != [] ==> ItemOk(items[0]) && !StartsWithBom(items[0])
    ensures var s := RunLines(st, Lines(items));
      s.error == st.error && s.store == Puts(st.store, Entries(items, st.section))
    decreases |items|
  {
    hide MakeKey, After, Bom, NameOk, Unused, DistinctKeys, Blank, TailOk, Uncommented, Trimmed, Plain, SegmentOk;
    if items != [] {
      var rest := items[1..];
      var mid := RunLines(st, ItemLines(items[0]));
      RunLinesJoin(st, ItemLines(items[0]), Lines(rest));
      match items[0]
      case Title(s, tail) =>
        TitleRun(st, s, tail);
        assert mid == RunLines(After(st, "[" + s + "]" + tail), []);
        ItemsRun(mid, rest);
      case Assign(n, gap, sep, segments) =>
        var entries := Entries(items, st.section);
        assert entries[0] == Entry(st.section, n, Join(segments)) && entries[1..] == Entries(rest, st.section);
        UnusedFirst(st.store, entries);
        PutNext(st.store, entries);
        SegmentsRun(st, n, gap, sep, segments);
        ItemsRun(mid, rest);
    }
  }

  lemma UnusedFirst(st: Store, entries: seq<Entry>)
    requires entries != [] && Unused(st, entries)
    ensures MakeKey(entries[0].section, entries[0].name) !in st.values
  {
  }

  lemma {:induction false} LinesPlain(items: seq<Item>)
    requires forall i :: 0 <= i < |items| ==> ItemOk(items[i])
    ensures forall i :: 0 <= i < |Lines(items)| ==> Plain(Lines(items)[i]) && |Lines(items)[i]| <= 199
  {
    hide Plain;
    if items != [] {
      assert ItemOk(items[0]);
      ItemPlain(items[0]);
      hide ItemOk;
      LinesPlain(items[1..]);
    }
  }

  lemma ItemPlain(item: Item)
    requires ItemOk(item)
    ensures forall i :: 0 <= i < |ItemLines(item)| ==> Plain(ItemLines(item)[i]) && |ItemLines(item)[i]| <= 199
  {
    if item.Assign? { MorePlain(item.name, item.gap, item.sep, item.segments); }
  }

  lemma {:induction false} MorePlain(n: string, gap: string, sep: char, segments: seq<Segment>)
    requires SegmentsOk(n, gap, sep, segments)
    ensures forall i :: 0 <= i < |MoreLines(segments)| ==>
      Plain(MoreLines(segments)[i]) && |MoreLines(segments)[i]| <= 199
    decreases |segments|
  {
    if |segments| > 1 {
      MorePlain(n, gap, sep, segments[..|segments| - 1]);
      assert MoreOk(segments[|segments| - 1]);
    }
  }

  lemma {:induction false} NamesOf(items: seq<Item>, section: string)
    requires forall i :: 0 <= i < |items| ==> ItemOk(items[i])
    ensures forall i :: 0 <= i < |Entries(items, section)| ==> '=' !in Entries(items, section)[i].name
    decreases |items|
  {
    if items != [] {
      assert ItemOk(items[0]);
      match items[0]
      case Title(s, _) => NamesOf(items[1..], s);
      case Assign(n, _, _, _) => NamesOf(items[1..], section);
    }
  }

  lemma {:induction false} PutsSections(st: Store, entries: seq<Entry>)
    ensures Puts(st, entries).sections == st.sections + set e | e in entries :: e.section
    decreases |entries|
  {
    if entries != [] {
      PutsSections(Put(st, entries[0]), entries[1..]);
      assert entries == [entries[0]] + entries[1..];
    }
  }

  lemma {:induction false} PutsValues(st: Store, entries: seq<Entry>, key: string)
    requires DistinctKeys(entries)
    ensures forall i :: 0 <= i < |entries| && MakeKey(entries[i].section, entries[i].name) == key ==>
      key in Puts(st, entries).values && Puts(st, entries).values[key] == entries[i].value
    ensures (forall i :: 0 <= i < |entries| ==> MakeKey(entries[i].section, entries[i].name) != key) ==>
      (key in Puts(st, entries).values <==> key in st.values)
      && (key in st.values ==> Puts(st, entries).values[key] == st.values[key])
    decreases |entries|
  {
    hide MakeKey;
    if entries != [] {
      var st', rest := Put(st, entries[0]), entries[1..];
      assert forall i :: 0 <= i < |rest| ==> rest[i] == entries[i + 1];
      PutsValues(st', rest, key);
    }
  }

  /** Parsing the rendered file reports no error, and Get returns every value under every spelling of its name. */
  lemma RoundTrip(items: seq<Item>)
    requires Lexical(items)
    ensures Load(Render(Lines(items))).error == 0
    ensures forall i: nat, section: string, name: string, d: string ::
      i < |Entries(items, "")| && '=' !in name
      && SameName(Entries(items, "")[i].section, Entries(items, "")[i].name, section, name) ==>
        Get(Load(Render(Lines(items))).store, section, name, d) == Entries(items, "")[i].value
    ensures forall section: string, name: string, d: string ::
      '=' !in name && (forall e :: e in Entries(items, "") ==> !SameName(e.section, e.name, section, name)) ==>
        Get(Load(Render(Lines(items))).store, section, name, d) == d
    ensures Load(Render(Lines(items))).store.sections == set e | e in Entries(items, "") :: e.section
  {
    var entries := Entries(items, "");
    NamesOf(items, "");
    forall i, j | 0 <= i < j < |entries|
      ensures MakeKey(entries[i].section, entries[i].name) != MakeKey(entries[j].section, entries[j].name)
    {
      MakeKeyInjective(entries[i].section, entries[i].name, entries[j].section, entries[j].name);
    }
    LinesPlain(items);
    RenderTaken(START, Lines(items));
    ItemsRun(START, items);
    PutsSections(EMPTY, entries);
    var store := Puts(EMPTY, entries);
    forall i: nat, section: string, name: string, d: string |
      i < |entries| && '=' !in name && SameName(entries[i].section, entries[i].name, section, name)
      ensures Get(store, section, name, d) == entries[i].value
    {
      MakeKeyInjective(entries[i].section, entries[i].name, section, name);
      PutsValues(EMPTY, entries, MakeKey(section, name));
    }
    forall section: string, name: string, d: string |
      '=' !in name && (forall e :: e in entries ==> !SameName(e.section, e.name, section, name))
      ensures Get(store, section, name, d) == d
    {
      forall i | 0 <= i < |entries| ensures MakeKey(entries[i].section, entries[i].name) != MakeKey(section, name) {
        assert entries[i] in entries;
        MakeKeyInjective(entries[i].section, entries[i].name, section, name);
      }
      PutsValues(EMPTY, entries, MakeKey(section, name));
    }
  }
}
