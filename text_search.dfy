/** The string tests the outliner's search filter is built from:
    `string.IsNullOrWhiteSpace` and
    `string.IndexOf(value, StringComparison.OrdinalIgnoreCase)`. */
module TextSearch {
  import opened Wrappers

  /** `char.IsWhiteSpace`: the Unicode space separators, the line and
      paragraph separators, and the control characters U+0009 to U+000D,
      U+0085. */
  predicate IsWhiteSpace(c: char) {
    ('\U{9}' <= c <= '\U{D}') || c == ' ' || c == '\U{85}' || c == '\U{A0}'
    || c == '\U{1680}' || ('\U{2000}' <= c <= '\U{200A}') || c == '\U{2028}'
    || c == '\U{2029}' || c == '\U{202F}' || c == '\U{205F}' || c == '\U{3000}'
  }

  /** Whitespace from position `k` on. */
  function AllWhiteSpaceFrom(s: string, k: nat): (r: bool)
    requires k <= |s|
    ensures r <==> forall i :: k <= i < |s| ==> IsWhiteSpace(s[i])
    decreases |s| - k
  {
    k == |s| || (IsWhiteSpace(s[k]) && AllWhiteSpaceFrom(s, k + 1))
  }

  /** `string.IsNullOrWhiteSpace`. */
  function IsNullOrWhiteSpace(s: Option<string>): (r: bool)
    ensures r <==> s.None? || forall i :: 0 <= i < |s.value| ==> IsWhiteSpace(s.value[i])
    ensures s == Some("") ==> r
  {
    match s
    case None => true
    case Some(v) => AllWhiteSpaceFrom(v, 0)
  }

  /** Ordinal case folding, for the ASCII letters. */
  function Fold(c: char): (d: char)
    ensures 'A' <= c <= 'Z' ==> d as int == c as int + 32
    ensures !('A' <= c <= 'Z') ==> d == c
    ensures !('A' <= d <= 'Z')
  {
    if 'A' <= c <= 'Z' then (c as int + 32) as char else c
  }

  /** Two characters compare equal under `OrdinalIgnoreCase`. */
  predicate SameIgnoringCase(a: char, b: char) {
    Fold(a) == Fold(b)
  }

  /** `p` occurs in `s` at position `k`, ignoring case. */
  predicate MatchAt(s: string, p: string, k: int) {
    0 <= k && k + |p| <= |s| && forall j :: 0 <= j < |p| ==> SameIgnoringCase(s[k + j], p[j])
  }

  /** The first match at or after `k`, or -1. */
  function FirstMatchFrom(s: string, p: string, k: nat): (i: int)
    ensures i == -1 || (k <= i && MatchAt(s, p, i))
    ensures forall j :: k <= j && (i == -1 || j < i) ==> !MatchAt(s, p, j)
    decreases |s| + 1 - k
  {
    if k + |p| > |s| then -1
    else if MatchAt(s, p, k) then k
    else FirstMatchFrom(s, p, k + 1)
  }

  /** `s.IndexOf(p, StringComparison.OrdinalIgnoreCase)`: the first position
      at which `p` occurs ignoring case, or -1 when it occurs nowhere. */
  function IndexOfIgnoreCase(s: string, p: string): (i: int)
    ensures i == -1 || 0 <= i <= |s| - |p|
    ensures i >= 0 ==> MatchAt(s, p, i) && forall j :: 0 <= j < i ==> !MatchAt(s, p, j)
    ensures i < 0 <==> forall j :: !MatchAt(s, p, j)
  {
    FirstMatchFrom(s, p, 0)
  }

  /** An empty search text is found at the start of every header. */
  lemma EmptyTextFoundAtStart(s: string)
    ensures IndexOfIgnoreCase(s, "") == 0
  {
    assert MatchAt(s, "", 0);
  }

  /** A header that holds the search text verbatim passes the filter. */
  lemma {:induction false} ExactOccurrenceFound(a: string, p: string, b: string)
    ensures 0 <= IndexOfIgnoreCase(a + p + b, p) <= |a|
  {
    var s := a + p + b;
    forall j | 0 <= j < |p| ensures SameIgnoringCase(s[|a| + j], p[j]) {
      assert s[|a| + j] == p[j];
    }
    assert MatchAt(s, p, |a|);
  }

  /** Changing the case of ASCII letters in the search text changes nothing. */
  lemma {:induction false} CaseOfTextIrrelevant(s: string, p: string, q: string)
    requires |p| == |q| && forall j :: 0 <= j < |p| ==> SameIgnoringCase(p[j], q[j])
    ensures IndexOfIgnoreCase(s, p) == IndexOfIgnoreCase(s, q)
  {
    forall k ensures MatchAt(s, p, k) == MatchAt(s, q, k) {
      if MatchAt(s, p, k) {
        assert forall j :: 0 <= j < |q| ==> SameIgnoringCase(s[k + j], q[j]);
      }
      if MatchAt(s, q, k) {
        assert forall j :: 0 <= j < |p| ==> SameIgnoringCase(s[k + j], p[j]);
      }
    }
  }

  /** Typing more characters only narrows the filter: a header that matches
      the longer text matches every prefix of it, no later than the longer
      one. */
  lemma {:induction false} LongerTextNarrows(s: string, p: string, q: string)
    requires IndexOfIgnoreCase(s, p + q) >= 0
    ensures 0 <= IndexOfIgnoreCase(s, p) <= IndexOfIgnoreCase(s, p + q)
  {
    var k := IndexOfIgnoreCase(s, p + q);
    forall j | 0 <= j < |p| ensures SameIgnoringCase(s[k + j], p[j]) {
      assert (p + q)[j] == p[j];
    }
    assert MatchAt(s, p, k);
  }
}
