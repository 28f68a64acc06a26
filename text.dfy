/**
 * The pieces of Python's `str` that the extraction code relies on:
 * `find` and `rfind` (which answer -1 when the needle is absent) and the
 * whitespace class that the regular expression escape `\s` stands for.
 */
module Text {

  /** `pat` occurs in `s` starting at index `i`. */
  predicate OccursAt(s: string, pat: string, i: int)
  {
    0 <= i && i + |pat| <= |s| && s[i..i + |pat|] == pat
  }

  /** `s.find(pat, from)`: the least index at or after `from` where `pat` occurs, or -1. */
  function Find(s: string, pat: string, from: nat): (r: int)
    ensures r == -1 || (from <= r && OccursAt(s, pat, r))
    ensures forall j :: from <= j && (r == -1 || j < r) ==> !OccursAt(s, pat, j)
    decreases |s| - from
  {
    if from + |pat| > |s| then -1
    else if OccursAt(s, pat, from) then from
    else Find(s, pat, from + 1)
  }

  /** The greatest index at or below `hi` where `pat` occurs, or -1. */
  function FindLastAtOrBelow(s: string, pat: string, hi: int): (r: int)
    ensures r == -1 || (0 <= r <= hi && OccursAt(s, pat, r))
    ensures forall j :: (if r == -1 then 0 else r + 1) <= j <= hi ==> !OccursAt(s, pat, j)
    decreases hi + 1
  {
    if hi < 0 then -1
    else if OccursAt(s, pat, hi) then hi
    else FindLastAtOrBelow(s, pat, hi - 1)
  }

  /** `s.rfind(pat)`: the greatest index where `pat` occurs, or -1. */
  function RFind(s: string, pat: string): (r: int)
    ensures r == -1 || OccursAt(s, pat, r)
    ensures forall j :: r < j ==> !OccursAt(s, pat, j)
  {
    FindLastAtOrBelow(s, pat, |s| - |pat|)
  }

  /** A one-character needle occurs exactly where that character stands. */
  lemma OccursAtChar(s: string, c: char, i: int)
    ensures OccursAt(s, [c], i) <==> 0 <= i < |s| && s[i] == c
  {
    if 0 <= i < |s| {
      assert s[i..i + 1] == [s[i]];
    }
  }

  /** An occurrence of `p + q` is an occurrence of `p` followed by one of `q`. */
  /** Both parts of a concatenation occur in it, where they were put. */
  lemma OccursInAppend(p: string, q: string)
    ensures OccursAt(p + q, p, 0) && OccursAt(p + q, q, |p|)
  {
    assert (p + q)[0..|p|] == p;
    assert (p + q)[|p|..|p| + |q|] == q;
  }

  lemma OccursAtSplit(s: string, p: string, q: string, i: int)
    requires OccursAt(s, p + q, i)
    ensures OccursAt(s, p, i) && OccursAt(s, q, i + |p|)
  {
    assert s[i..i + |p|] == s[i..i + |p + q|][..|p|];
    assert s[i + |p|..i + |p| + |q|] == s[i..i + |p + q|][|p|..];
  }

  /**
   * Python's whitespace: the characters for which `str.isspace()` holds, which is
   * what `\s` matches in a pattern over `str`.
   */
  predicate IsSpace(c: char)
  {
    ('\t' <= c <= '\r') || ('\U{1C}' <= c <= '\U{1F}') || c == ' ' || c == '\U{85}' ||
    c == '\U{A0}' || c == '\U{1680}' || ('\U{2000}' <= c <= '\U{200A}') || c == '\U{2028}' ||
    c == '\U{2029}' || c == '\U{202F}' || c == '\U{205F}' || c == '\U{3000}'
  }
}
