/** The in-place string helpers of the INI parser (INIReader.h). */
module IniText {
  import opened CStrings

  predicate IsSpace(c: char) {
    c == ' ' || c == '\t' || c == '\n' || c == '\U{b}' || c == '\U{c}' || c == '\r'
  }

  /** Without trailing whitespace. */
  function RStrip(s: string): (r: string)
    ensures r <= s && (r != "" ==> !IsSpace(r[|r| - 1]))
    ensures forall i :: |r| <= i < |s| ==> IsSpace(s[i])
  {
    if s != "" && IsSpace(s[|s| - 1]) then RStrip(s[..|s| - 1]) else s
  }

  /** How much leading whitespace there is. */
  function Indent(s: string): (k: nat)
    ensures k <= |s| && (k < |s| ==> !IsSpace(s[k]))
    ensures forall i :: 0 <= i < k ==> IsSpace(s[i])
  {
    if s != "" && IsSpace(s[0]) then 1 + Indent(s[1..]) else 0
  }

  function LSkip(s: string): string { s[Indent(s)..] }

  /** One of the given characters, or a ';' after whitespace. */
  predicate StopsAt(s: string, chars: string, i: nat)
    requires i < |s|
  {
    s[i] in chars || (i > 0 && IsSpace(s[i - 1]) && s[i] == ';')
  }

  /** The first stop at or after i, or |s|. */
  function FindFrom(s: string, chars: string, i: nat): (k: nat)
    requires i <= |s|
    ensures i <= k <= |s| && (k < |s| ==> StopsAt(s, chars, k))
    ensures forall j :: i <= j < k ==> !StopsAt(s, chars, j)
    decreases |s| - i
  {
    if i < |s| && !StopsAt(s, chars, i) then FindFrom(s, chars, i + 1) else i
  }

  function FindCharsOrComment(s: string, chars: string): (k: nat)
    ensures k <= |s|
  {
    FindFrom(s, chars, 0)
  }

  lemma FindUnique(s: string, chars: string, k: nat)
    requires k <= |s| && (k < |s| ==> StopsAt(s, chars, k))
    requires forall j :: 0 <= j < k ==> !StopsAt(s, chars, j)
    ensures FindCharsOrComment(s, chars) == k
  {
    FindFromUnique(s, chars, 0, k);
  }

  lemma {:induction false} FindFromUnique(s: string, chars: string, i: nat, k: nat)
    requires i <= k <= |s| && (k < |s| ==> StopsAt(s, chars, k))
    requires forall j :: i <= j < k ==> !StopsAt(s, chars, j)
    ensures FindFrom(s, chars, i) == k
    decreases k - i
  {
    if i < k { FindFromUnique(s, chars, i + 1, k); }
  }

  lemma {:induction false} RStripUnique(s: string, k: nat)
    requires k <= |s| && (k > 0 ==> !IsSpace(s[k - 1])) && forall i :: k <= i < |s| ==> IsSpace(s[i])
    ensures RStrip(s) == s[..k]
  {
    if k < |s| {
      RStripUnique(s[..|s| - 1], k);
      assert s[..|s| - 1][..k] == s[..k];
    } else {
      assert s[..k] == s;
    }
  }

  lemma IndentUnique(s: string, k: nat)
    requires k <= |s| && (k < |s| ==> !IsSpace(s[k])) && forall i :: 0 <= i < k ==> IsSpace(s[i])
    ensures Indent(s) == k
  {
  }

  // ----- on the line buffer

  /** p + strlen(p). */
  method StrEnd(line: array<char>, p: nat) returns (q: nat)
    requires Terminated(line[..], p)
    ensures q == FindNul(line[..], p)
  {
    q := p;
    while line[q] != '\0'
      invariant p <= q <= FindNul(line[..], p)
      decreases FindNul(line[..], p) - q
    {
      q := q + 1;
    }
    FindNulUnique(line[..], p, q);
  }

  /** rstrip: trailing whitespace becomes terminators. */
  method RStripAt(line: array<char>, p: nat)
    requires Terminated(line[..], p)
    modifies line
    ensures Terminated(line[..], p) && CStr(line[..], p) == RStrip(old(CStr(line[..], p)))
    ensures line[..p] == old(line[..p])
    ensures FindNul(line[..], p) <= old(FindNul(line[..], p))
    ensures line[old(FindNul(line[..], p))..] == old(line[FindNul(line[..], p)..])
  {
    ghost var s, n := line[..], FindNul(line[..], p);
    var q := StrEnd(line, p);
    while q > p && IsSpace(line[q - 1])
      invariant p <= q <= n
      invariant line[q] == '\0'
      invariant forall i :: q <= i < n ==> IsSpace(s[i])
      invariant line[..q] == s[..q] && line[n..] == s[n..]
    {
      assert line[..q - 1] == line[..q][..q - 1];
      q := q - 1;
      line[q] := '\0';
    }
    Stripped(s, line[..], p, q);
    assert line[..p] == line[..q][..p];
  }

  lemma Stripped(s: string, t: string, p: nat, q: nat)
    requires Terminated(s, p) && |s| == |t| && p <= q <= FindNul(s, p)
    requires s[..q] == t[..q] && t[q] == '\0' && (q == p || !IsSpace(t[q - 1]))
    requires forall i :: q <= i < FindNul(s, p) ==> IsSpace(s[i])
    ensures FindNul(t, p) == q && CStr(t, p) == RStrip(CStr(s, p))
  {
    assert forall i :: 0 <= i < q ==> t[i] == t[..q][i] == s[..q][i] == s[i];
    FindNulUnique(t, p, q);
    RStripUnique(CStr(s, p), q - p);
    assert t[p..q] == s[p..q] == CStr(s, p)[..q - p];
  }

  /** lskip: the position of the first character that is not whitespace. */
  method LSkipAt(line: array<char>, p: nat) returns (q: nat)
    requires Terminated(line[..], p)
    ensures q == p + Indent(CStr(line[..], p))
    ensures q < line.Length && Terminated(line[..], q) && CStr(line[..], q) == LSkip(CStr(line[..], p))
  {
    hide CStr, FindNul, Indent, IsSpace;
    ghost var text := CStr(line[..], p);
    q := p;
    CharOf(line[..], p, 0);
    while line[q] != '\0' && IsSpace(line[q])
      invariant p <= q <= p + |text| && q < line.Length
      invariant q < p + |text| ==> line[q] == text[q - p] != '\0'
      invariant q == p + |text| ==> line[q] == '\0'
      invariant forall i :: 0 <= i < q - p ==> IsSpace(text[i])
      decreases p + |text| - q
    {
      q := q + 1;
      CharOf(line[..], p, q - p);
    }
    IndentUnique(text, q - p);
    TailOf(line[..], p, q - p);
  }

  /** find_chars_or_comment; an empty chars stands for NULL. */
  method FindAt(line: array<char>, p: nat, chars: string) returns (q: nat)
    requires Terminated(line[..], p)
    ensures q == p + FindCharsOrComment(CStr(line[..], p), chars) < line.Length
  {
    ghost var text, n := CStr(line[..], p), FindNul(line[..], p);
    q := p;
    var wasSpace := false;
    while line[q] != '\0' && line[q] !in chars && !(wasSpace && line[q] == ';')
      invariant p <= q <= n
      invariant wasSpace == (q > p && IsSpace(line[q - 1]))
      invariant forall j :: 0 <= j < q - p ==> !StopsAt(text, chars, j)
      decreases n - q
    {
      assert !StopsAt(text, chars, q - p);
      wasSpace := IsSpace(line[q]);
      q := q + 1;
    }
    FindUnique(text, chars, q - p);
  }

  /** What a 50-character field keeps of a string. */
  function Truncated(s: string): string {
    if |s| > 49 then s[..49] else s
  }

  /** strncpy0 into a 50-character field. */
  method StrNCpy0(dest: array<char>, line: array<char>, p: nat)
    requires dest.Length == 50 && dest != line && Terminated(line[..], p)
    modifies dest
    ensures Terminated(dest[..], 0) && CStr(dest[..], 0) == Truncated(CStr(line[..], p))
  {
    ghost var text := CStr(line[..], p);
    ghost var n := FindNul(line[..], p);
    var i := 0;
    while i < 50 && line[p + i] != '\0'
      invariant i <= 50 && p + i <= n
      invariant forall j :: 0 <= j < i ==> dest[j] == text[j]
    {
      dest[i] := line[p + i];
      i := i + 1;
    }
    forall j | i <= j < 50 { dest[j] := '\0'; }
    dest[49] := '\0';
    ghost var kept, d := Truncated(text), dest[..];
    assert |kept| == (if i == 50 then 49 else i);
    assert d[0..|kept|] == kept && d[|kept|] == '\0';
    CStrIs(d, 0, kept);
    assert line[..] == old(line[..]);
  }
}
