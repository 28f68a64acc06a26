/**
 * The scan `re.finditer` makes over a text of length `n`: the pattern is tried at
 * index 0; after a match the scan goes on at the match's end, otherwise at the next
 * index. The scan is stated over the table of attempts, `at[p]` being the outcome of
 * trying the pattern at index `p`, so that it holds for any pattern whose matches
 * are never empty.
 */
module Scan {
  import opened Wrappers
  import opened FieldRecords

  /** Every successful attempt starts where it was made and ends further on, within the text. */
  predicate Spanned(at: seq<Option<RecordMatch>>)
  {
    forall p :: 0 <= p < |at| && at[p].Some? ==> at[p].value.start == p < at[p].value.end <= |at|
  }

  /** The matches found from index `i` on, in order; they do not overlap. */
  function ScanFrom(at: seq<Option<RecordMatch>>, i: nat): (ms: seq<RecordMatch>)
    requires Spanned(at) && i <= |at|
    ensures forall k :: 0 <= k < |ms| ==>
              i <= ms[k].start < ms[k].end <= |at| && at[ms[k].start] == Some(ms[k])
    ensures forall k :: 0 <= k < |ms| - 1 ==> ms[k].end <= ms[k + 1].start
    decreases |at| - i
  {
    if i == |at| then []
    else match at[i]
      case Some(m) => [m] + ScanFrom(at, m.end)
      case None => ScanFrom(at, i + 1)
  }

  lemma {:induction false} ScanCovering(at: seq<Option<RecordMatch>>, i: nat, p: nat) returns (k: nat)
    requires Spanned(at) && i <= p < |at| && at[p].Some?
    ensures k < |ScanFrom(at, i)| && ScanFrom(at, i)[k].start <= p < ScanFrom(at, i)[k].end
    decreases |at| - i
  {
    match at[i]
    case Some(m) =>
      if m.end <= p {
        var k' := ScanCovering(at, m.end, p);
        k := k' + 1;
      } else {
        k := 0;
      }
    case None =>
      k := ScanCovering(at, i + 1, p);
  }

  /**
   * Nothing is missed: every index at which the pattern matches lies within one of the
   * matches found (it is that match's start, or it was overlapped by an earlier match).
   */
  lemma ScanComplete(at: seq<Option<RecordMatch>>, i: nat, p: nat)
    requires Spanned(at) && i <= p < |at| && at[p].Some?
    ensures exists k :: 0 <= k < |ScanFrom(at, i)| && ScanFrom(at, i)[k].start <= p < ScanFrom(at, i)[k].end
  {
    var k := ScanCovering(at, i, p);
  }

  /** The scan finds nothing exactly when every attempt from `i` on fails. */
  lemma ScanEmpty(at: seq<Option<RecordMatch>>, i: nat)
    requires Spanned(at) && i <= |at|
    ensures ScanFrom(at, i) == [] <==> forall p :: i <= p < |at| ==> at[p].None?
  {
    forall p | i <= p < |at| && at[p].Some? ensures ScanFrom(at, i) != [] {
      var k := ScanCovering(at, i, p);
    }
    if forall p :: i <= p < |at| ==> at[p].None? {
      ScanSkip(at, i, |at|);
    }
  }

  /** Failed attempts are passed over. */
  lemma {:induction false} ScanSkip(at: seq<Option<RecordMatch>>, i: nat, j: nat)
    requires Spanned(at) && i <= j <= |at|
    requires forall p :: i <= p < j ==> at[p].None?
    ensures ScanFrom(at, i) == ScanFrom(at, j)
    decreases j - i
  {
    if i < j {
      ScanSkip(at, i + 1, j);
    }
  }

  /** A failed attempt at `i` is passed over. */
  lemma ScanNoMatch(at: seq<Option<RecordMatch>>, i: nat)
    requires Spanned(at) && i < |at| && at[i].None?
    ensures ScanFrom(at, i) == ScanFrom(at, i + 1)
  {
  }

  /** A successful attempt at `i` is reported first, and the scan resumes at its end. */
  lemma ScanMatch(at: seq<Option<RecordMatch>>, i: nat, m: RecordMatch)
    requires Spanned(at) && i < |at| && at[i] == Some(m)
    ensures ScanFrom(at, i) == [m] + ScanFrom(at, m.end)
  {
  }

  /** A text with exactly one successful attempt yields exactly that match. */
  lemma ScanOnly(at: seq<Option<RecordMatch>>, p: nat, m: RecordMatch)
    requires Spanned(at) && p < |at| && at[p] == Some(m)
    requires forall q :: 0 <= q < |at| && q != p ==> at[q].None?
    ensures ScanFrom(at, 0) == [m]
  {
    ScanSkip(at, 0, p);
    ScanEmpty(at, m.end);
  }

  /** Two matches that tile the text are both reported, in order. */
  lemma ScanAdjacent(at: seq<Option<RecordMatch>>, m0: RecordMatch, m1: RecordMatch)
    requires Spanned(at) && 0 < |at| && at[0] == Some(m0)
    requires m0.end < |at| && at[m0.end] == Some(m1) && m1.end == |at|
    ensures ScanFrom(at, 0) == [m0, m1]
  {
    assert ScanFrom(at, m0.end) == [m1] + ScanFrom(at, |at|);
  }

  /**
   * The scanning loop: at index `i`, a successful attempt is recorded and the scan
   * continues at its end; a failed one moves the scan on by one index.
   */
  method ScanAll(at: seq<Option<RecordMatch>>) returns (ms: seq<RecordMatch>)
    requires Spanned(at)
    ensures ms == ScanFrom(at, 0)
  {
    ms := [];
    var i := 0;
    while i < |at|
      invariant 0 <= i <= |at|
      invariant ms + ScanFrom(at, i) == ScanFrom(at, 0)
      decreases |at| - i
    {
      match at[i]
      case Some(m) =>
        ScanMatch(at, i, m);
        ms := ms + [m];
        i := m.end;
      case None =>
        ScanNoMatch(at, i);
        i := i + 1;
    }
    assert ScanFrom(at, i) == [];
  }
}
