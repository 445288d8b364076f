/** Null-terminated text inside character buffers. */
module CStrings {
  /** The first NUL at or after p, or |s| when there is none. */
  function FindNul(s: string, p: nat): (q: nat)
    requires p <= |s|
    ensures p <= q <= |s|
    ensures forall k :: p <= k < q ==> s[k] != '\0'
    ensures q < |s| ==> s[q] == '\0'
    decreases |s| - p
  {
    if p < |s| && s[p] != '\0' then FindNul(s, p + 1) else p
  }

  /** The C string starting at p. */
  function CStr(s: string, p: nat): string
    requires p <= |s|
  {
    s[p..FindNul(s, p)]
  }

  lemma CStrIs(s: string, p: nat, text: string)
    requires p + |text| < |s| && s[p..p + |text|] == text && s[p + |text|] == '\0'
    requires '\0' !in text
    ensures CStr(s, p) == text && FindNul(s, p) == p + |text|
  {
    assert forall k :: p <= k < p + |text| ==> s[k] == text[k - p];
  }

  /** A terminator ends the string at p inside the buffer. */
  predicate Terminated(s: string, p: nat) {
    p < |s| && FindNul(s, p) < |s|
  }

  lemma FindNulUnique(s: string, p: nat, q: nat)
    requires p <= q < |s| && s[q] == '\0' && forall k :: p <= k < q ==> s[k] != '\0'
    ensures FindNul(s, p) == q
  {
  }

  /** A pointer into a string denotes its tail. */
  lemma TailOf(s: string, p: nat, k: nat)
    requires Terminated(s, p) && k <= |CStr(s, p)|
    ensures Terminated(s, p + k) && CStr(s, p + k) == CStr(s, p)[k..] && FindNul(s, p + k) == FindNul(s, p)
  {
    FindNulUnique(s, p + k, FindNul(s, p));
  }

  /** Reading through a pointer reads the string, or its terminator. */
  lemma CharOf(s: string, p: nat, k: nat)
    requires Terminated(s, p) && k <= |CStr(s, p)|
    ensures p + k < |s|
    ensures k < |CStr(s, p)| ==> s[p + k] == CStr(s, p)[k] != '\0'
    ensures k == |CStr(s, p)| ==> s[p + k] == '\0'
  {
  }

  /** A terminator stored inside a string cuts it in two. */
  lemma CutAt(s: string, p: nat, k: nat)
    requires Terminated(s, p) && k < |CStr(s, p)|
    ensures var t := s[p + k := '\0'];
      && Terminated(t, p) && CStr(t, p) == CStr(s, p)[..k]
      && Terminated(t, p + k + 1) && CStr(t, p + k + 1) == CStr(s, p)[k + 1..]
  {
    var t, n := s[p + k := '\0'], FindNul(s, p);
    FindNulUnique(t, p, p + k);
    FindNulUnique(t, p + k + 1, n);
    assert forall i :: 0 <= i < |s| && i != p + k ==> t[i] == s[i];
    assert CStr(s, p)[..k] == s[p..p + k] == t[p..p + k];
    assert CStr(s, p)[k + 1..] == s[p + k + 1..n] == t[p + k + 1..n];
  }
}
