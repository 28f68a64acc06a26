/**
 * `parse_and_reconstruct_fields`: scan the response with the escaped pattern, then with
 * the standard one, convert the four coordinates of every match with `float`, and
 * collect the records, escaped matches first, into `{"form_fields": [...]}`.
 */
module Fields {
  import opened Wrappers
  import opened Text
  import opened RecordPattern
  import opened FieldRecords
  import opened Reconstruct
  import opened Scan
  import opened Conversion

  // ---------------------------------------------------------------------------
  // The scan

  /** The outcome of trying `v`'s pattern at each index of `text`. */
  function Attempts(text: string, v: Variant): (at: seq<Option<RecordMatch>>)
    ensures |at| == |text| && Spanned(at)
    ensures forall p :: 0 <= p < |text| ==> at[p] == MatchAt(text, p, v)
  {
    seq(|text|, p requires 0 <= p < |text| => MatchAt(text, p, v))
  }

  /**
   * `re.finditer(pattern, text)` for `v`'s pattern: every match reported is an attempt
   * of the pattern that succeeds at its start, and the matches are in order and do not
   * overlap. (An attempt at index `|text|` always fails, since a match begins with `{`.)
   */
  function FindIter(text: string, v: Variant): (ms: seq<RecordMatch>)
    ensures forall k :: 0 <= k < |ms| ==>
              ms[k].start < ms[k].end <= |text| && MatchAt(text, ms[k].start, v) == Some(ms[k])
    ensures forall k :: 0 <= k < |ms| ==> WellFormed(ms[k].record)
    ensures forall k :: 0 <= k < |ms| - 1 ==> ms[k].end <= ms[k + 1].start
  {
    ScanFrom(Attempts(text, v), 0)
  }

  /**
   * The scan `re.finditer` performs over the attempts of `v`'s pattern at every index
   * of `text`. What it records is `FindIter`.
   */
  method FindAll(text: string, v: Variant) returns (ms: seq<RecordMatch>)
    ensures ms == FindIter(text, v)
  {
    var at := Attempts(text, v);
    ms := ScanAll(at);
  }

  /**
   * Every match reported is a match of the regular expression, and the record it holds
   * is the one read from that match's groups.
   */
  lemma FindIterSound(text: string, v: Variant, k: nat)
    requires k < |FindIter(text, v)|
    ensures var m := FindIter(text, v)[k];
            exists pieces :: PatternMatch(text, m.start, v, pieces) &&
              m == RecordMatch(m.start, m.start + |Concat(pieces)|, RecordOf(pieces))
  {
    var m := FindIter(text, v)[k];
    var pieces := MatchAtSound(text, m.start, v);
  }

  /** No match is missed: each index where the pattern matches lies within a reported match. */
  lemma FindIterComplete(text: string, v: Variant, p: nat)
    requires p < |text| && MatchAt(text, p, v).Some?
    ensures exists k :: 0 <= k < |FindIter(text, v)| &&
              FindIter(text, v)[k].start <= p < FindIter(text, v)[k].end
  {
    var at := Attempts(text, v);
    assert FindIter(text, v) == ScanFrom(at, 0);
    var k := ScanCovering(at, 0, p);
  }

  /** The scan finds nothing exactly when the pattern matches at no index. */
  lemma FindIterEmpty(text: string, v: Variant)
    ensures FindIter(text, v) == [] <==> forall p :: 0 <= p < |text| ==> MatchAt(text, p, v).None?
  {
    var at := Attempts(text, v);
    ScanEmpty(at, 0);
    assert forall p :: 0 <= p < |text| ==> at[p] == MatchAt(text, p, v);
  }

  /**
   * A record standing alone in the text is recovered exactly, whatever surrounds it:
   * text around it in which the pattern matches nowhere does not disturb it.
   */
  lemma SingleRecordRecovered(text: string, v: Variant, p: nat, pieces: seq<string>)
    requires p <= |text| && PatternMatch(text, p, v, pieces)
    requires forall q :: 0 <= q < |text| && q != p ==> MatchAt(text, q, v).None?
    ensures FindIter(text, v) == [RecordMatch(p, p + |Concat(pieces)|, RecordOf(pieces))]
  {
    MatchAtComplete(text, p, v, pieces);
    var at := Attempts(text, v);
    ScanOnly(at, p, RecordMatch(p, p + |Concat(pieces)|, RecordOf(pieces)));
  }

  /** Nothing is deduplicated: a record written twice is recovered twice. */
  lemma DuplicatesKept(v: Variant, pieces: seq<string>)
    requires Fits(Pattern(v), pieces)
    ensures var r := Concat(pieces);
            FindIter(r + r, v) ==
              [RecordMatch(0, |r|, RecordOf(pieces)), RecordMatch(|r|, 2 * |r|, RecordOf(pieces))]
  {
    var r := Concat(pieces);
    RecordTwice(v, pieces);
    var at := Attempts(r + r, v);
    ScanAdjacent(at, RecordMatch(0, |r|, RecordOf(pieces)), RecordMatch(|r|, 2 * |r|, RecordOf(pieces)));
  }

  /**
   * `parse_and_reconstruct_fields`: scan with the escaped pattern and with the standard
   * pattern, then run the two `for` loops, building `{"form_fields": [...]}`.
   */
  method ParseAndReconstructFields(responseText: string) returns (result: Result<Extraction, ConversionError>)
    ensures result == Reconstruction(FindIter(responseText, Escaped), FindIter(responseText, Standard))
  {
    var matchesEscaped := FindAll(responseText, Escaped);
    var matchesStandard := FindAll(responseText, Standard);
    var escaped := AppendRecords(matchesEscaped, []);
    if escaped.Failure? {
      assert Convert(matchesEscaped).Failure?;
      return Failure(escaped.error);
    }
    assert escaped.value == Convert(matchesEscaped).value;
    var all := AppendRecords(matchesStandard, escaped.value);
    if all.Failure? {
      assert Convert(matchesStandard).Failure?;
      return Failure(all.error);
    }
    assert all.value == Convert(matchesEscaped).value + Convert(matchesStandard).value;
    result := Success(Extraction(all.value));
  }

  /** A response in which neither pattern matches anywhere gives no fields and no error. */
  lemma NoMatchNoFields(text: string)
    requires forall p :: 0 <= p < |text| ==> MatchAt(text, p, Escaped).None? && MatchAt(text, p, Standard).None?
    ensures Reconstruction(FindIter(text, Escaped), FindIter(text, Standard)) == Success(Extraction([]))
  {
    FindIterEmpty(text, Escaped);
    FindIterEmpty(text, Standard);
    var none: seq<RecordMatch> := [];
    var noFields: seq<FieldRecord> := [];
    assert Convert(none) == Success(noFields) && noFields + noFields == noFields;
  }
}
