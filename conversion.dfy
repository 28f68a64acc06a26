/**
 * Converting the captured coordinates with Python's `float` and collecting the records:
 * the two `for` loops of `parse_and_reconstruct_fields`.
 */
module Conversion {
  import opened Wrappers
  import opened RecordPattern
  import opened FieldRecords


  predicate IsDigit(c: char)
  {
    '0' <= c <= '9'
  }

  predicate Digits(s: string)
  {
    forall k :: 0 <= k < |s| ==> IsDigit(s[k])
  }

  /**
   * When `float` accepts text made of digits and dots: at least one digit and at most
   * one dot (a dot may lead or trail: `.5` and `5.` are numbers).
   */
  predicate IsFloatLiteral(s: string)
  {
    (exists k :: 0 <= k < |s| && IsDigit(s[k])) &&
    (forall a, b :: 0 <= a < b < |s| && s[a] == '.' ==> s[b] != '.')
  }

  /**
   * The decimal-number grammar `float` follows, restricted to digits and dots:
   * `digits [. [digits]] | . digits`.
   */
  ghost predicate DecimalSyntax(s: string)
  {
    (|s| > 0 && Digits(s)) ||
    exists a, b :: s == a + "." + b && Digits(a) && Digits(b) && |a| + |b| > 0
  }

  /** On the text a `[0-9.]+` group captures, `IsFloatLiteral` is exactly the grammar. */
  lemma FloatLiteralIsDecimal(s: string)
    requires AllIn(s, NumberChar)
    ensures IsFloatLiteral(s) <==> DecimalSyntax(s)
  {
    if IsFloatLiteral(s) {
      if i :| 0 <= i < |s| && s[i] == '.' {
        var a, b := s[..i], s[i + 1..];
        assert s == a + "." + b;
        forall k | 0 <= k < |a| ensures IsDigit(a[k]) {
          assert InClass(s[k], NumberChar);
        }
        forall k | 0 <= k < |b| ensures IsDigit(b[k]) {
          assert s[i + 1 + k] == b[k] && InClass(s[i + 1 + k], NumberChar);
        }
        var d :| 0 <= d < |s| && IsDigit(s[d]);
        assert d != i;
      } else {
        forall k | 0 <= k < |s| ensures IsDigit(s[k]) {
          assert InClass(s[k], NumberChar);
        }
      }
    }
    if |s| > 0 && Digits(s) {
      assert IsDigit(s[0]);
    } else if DecimalSyntax(s) {
      var a, b :| s == a + "." + b && Digits(a) && Digits(b) && |a| + |b| > 0;
      DotSplitIsFloatLiteral(s, a, b);
    }
  }

  lemma DotSplitIsFloatLiteral(s: string, a: string, b: string)
    requires s == a + "." + b && Digits(a) && Digits(b) && |a| + |b| > 0
    ensures IsFloatLiteral(s)
  {
    assert forall k :: 0 <= k < |s| && k != |a| ==> IsDigit(s[k]) by {
      forall k | 0 <= k < |s| && k != |a| ensures IsDigit(s[k]) {
        if k < |a| {
          assert s[k] == a[k];
        } else {
          assert s[k] == b[k - |a| - 1];
        }
      }
    }
    if |a| > 0 {
      assert IsDigit(s[0]);
    } else {
      assert IsDigit(s[1]);
    }
  }

  /** Every coordinate of the box is text `float` accepts. */
  predicate Convertible(b: BoundingBox)
  {
    IsFloatLiteral(b.x) && IsFloatLiteral(b.y) && IsFloatLiteral(b.width) && IsFloatLiteral(b.height)
  }

  /**
   * The coordinate whose conversion raises first, the four being converted in the
   * order x, y, width, height; `None` when all four convert.
   */
  function FirstUnconvertible(b: BoundingBox): (r: Option<string>)
    ensures r.None? <==> Convertible(b)
    ensures r.Some? ==> !IsFloatLiteral(r.value) && r.value in [b.x, b.y, b.width, b.height]
  {
    if !IsFloatLiteral(b.x) then Some(b.x)
    else if !IsFloatLiteral(b.y) then Some(b.y)
    else if !IsFloatLiteral(b.width) then Some(b.width)
    else if !IsFloatLiteral(b.height) then Some(b.height)
    else None
  }

  /** The records the matches hold, in order. */
  function Records(ms: seq<RecordMatch>): (rs: seq<FieldRecord>)
    ensures |rs| == |ms|
  {
    seq(|ms|, k requires 0 <= k < |ms| => ms[k].record)
  }

  /**
   * Converting the matches one after the other: the records, or the `ValueError` of
   * the first match holding a coordinate `float` refuses.
   */
  function Convert(ms: seq<RecordMatch>): (r: Result<seq<FieldRecord>, ConversionError>)
    ensures r.Success? <==> forall k :: 0 <= k < |ms| ==> Convertible(ms[k].record.boundingBox)
    ensures r.Success? ==> r.value == Records(ms)
    ensures r.Failure? ==>
              (exists k :: 0 <= k < |ms| &&
                 (forall j :: 0 <= j < k ==> Convertible(ms[j].record.boundingBox)) &&
                 FirstUnconvertible(ms[k].record.boundingBox) == Some(r.error.literal))
  {
    if ms == [] then Success([])
    else match FirstUnconvertible(ms[0].record.boundingBox)
      case Some(lit) => Failure(ValueError(lit))
      case None =>
        match Convert(ms[1..])
        case Failure(e) => Failure(e)
        case Success(rs) => Success([ms[0].record] + rs)
  }

  /** `Convert` stops at the first match whose box does not convert. */
  lemma {:induction false} ConvertStopsAt(ms: seq<RecordMatch>, k: nat, lit: string)
    requires k < |ms| && forall j :: 0 <= j < k ==> Convertible(ms[j].record.boundingBox)
    requires FirstUnconvertible(ms[k].record.boundingBox) == Some(lit)
    ensures Convert(ms) == Failure(ValueError(lit))
    decreases k
  {
    if k > 0 {
      assert FirstUnconvertible(ms[0].record.boundingBox).None?;
      ConvertStopsAt(ms[1..], k - 1, lit);
    }
  }

  /** The records of a prefix one match longer. */
  lemma RecordsSnoc(ms: seq<RecordMatch>, k: nat)
    requires k < |ms|
    ensures Records(ms[..k + 1]) == Records(ms[..k]) + [ms[k].record]
  {
    assert forall j :: 0 <= j < k ==> ms[..k + 1][j] == ms[..k][j];
  }

  /**
   * One `for match in ...` loop: append the record of every match, in order, to
   * `formFields`, or raise the `ValueError` of the first coordinate `float` refuses.
   * The outcome is `Convert` of the matches.
   */
  method AppendRecords(matches: seq<RecordMatch>, formFields: seq<FieldRecord>)
    returns (r: Result<seq<FieldRecord>, ConversionError>)
    ensures Convert(matches).Success? ==> r == Success(formFields + Convert(matches).value)
    ensures Convert(matches).Failure? ==> r == Failure(Convert(matches).error)
  {
    var fields := formFields;
    var k := 0;
    while k < |matches|
      invariant 0 <= k <= |matches|
      invariant forall j :: 0 <= j < k ==> Convertible(matches[j].record.boundingBox)
      invariant fields == formFields + Records(matches[..k])
    {
      var box := matches[k].record.boundingBox;
      match FirstUnconvertible(box)
      case Some(lit) =>
        ConvertStopsAt(matches, k, lit);
        return Failure(ValueError(lit));
      case None =>
        RecordsSnoc(matches, k);
        fields := fields + [matches[k].record];
        k := k + 1;
    }
    assert matches[..k] == matches;
    r := Success(fields);
  }

  /**
   * What `parse_and_reconstruct_fields` returns for the escaped and the standard
   * matches: the escaped matches' records followed by the standard matches' records, or
   * the first `ValueError` raised on the way (the escaped matches are converted first).
   */
  function Reconstruction(escaped: seq<RecordMatch>, standard: seq<RecordMatch>): (r: Result<Extraction, ConversionError>)
  {
    match Convert(escaped)
    case Failure(e) => Failure(e)
    case Success(first) =>
      match Convert(standard)
      case Failure(e) => Failure(e)
      case Success(second) => Success(Extraction(first + second))
  }

  /**
   * On success the fields are the records of the escaped matches followed by those of
   * the standard matches, each with coordinates `float` accepts, and well formed when
   * the matches' records are.
   */
  lemma ReconstructionFields(escaped: seq<RecordMatch>, standard: seq<RecordMatch>)
    requires forall k :: 0 <= k < |escaped| ==> WellFormed(escaped[k].record)
    requires forall k :: 0 <= k < |standard| ==> WellFormed(standard[k].record)
    requires Reconstruction(escaped, standard).Success?
    ensures Reconstruction(escaped, standard).value.formFields == Records(escaped) + Records(standard)
    ensures forall f :: f in Reconstruction(escaped, standard).value.formFields ==>
              WellFormed(f) && Convertible(f.boundingBox)
  {
    ConvertedRecordsValid(escaped);
    ConvertedRecordsValid(standard);
    var fs := Reconstruction(escaped, standard).value.formFields;
    assert fs == Convert(escaped).value + Convert(standard).value;
    forall f | f in fs ensures WellFormed(f) && Convertible(f.boundingBox) {
      assert f in Convert(escaped).value || f in Convert(standard).value;
    }
  }

  /**
   * The call fails exactly when some match holds a coordinate `float` refuses, and the
   * error names such a coordinate; failures in the escaped matches take precedence.
   */
  lemma ReconstructionFailure(escaped: seq<RecordMatch>, standard: seq<RecordMatch>)
    ensures Reconstruction(escaped, standard).Failure? <==>
              (exists k :: 0 <= k < |escaped| && !Convertible(escaped[k].record.boundingBox)) ||
              (exists k :: 0 <= k < |standard| && !Convertible(standard[k].record.boundingBox))
    ensures Reconstruction(escaped, standard).Failure? ==>
              !IsFloatLiteral(Reconstruction(escaped, standard).error.literal)
    ensures Convert(escaped).Failure? ==> Reconstruction(escaped, standard) == Failure(Convert(escaped).error)
  {
    if Convert(escaped).Failure? {
      ConvertFailureLiteral(escaped);
    } else if Convert(standard).Failure? {
      ConvertFailureLiteral(standard);
    }
  }

  /** The coordinate a failed conversion names is one `float` refuses. */
  lemma ConvertFailureLiteral(ms: seq<RecordMatch>)
    requires Convert(ms).Failure?
    ensures !IsFloatLiteral(Convert(ms).error.literal)
  {
    var k :| 0 <= k < |ms| && FirstUnconvertible(ms[k].record.boundingBox) == Some(Convert(ms).error.literal);
  }

  /** Every record a successful conversion yields is well formed when the matches' records are, and converts. */
  lemma ConvertedRecordsValid(ms: seq<RecordMatch>)
    requires forall k :: 0 <= k < |ms| ==> WellFormed(ms[k].record)
    requires Convert(ms).Success?
    ensures forall f :: f in Convert(ms).value ==> WellFormed(f) && Convertible(f.boundingBox)
  {
    var rs := Records(ms);
    assert forall k :: 0 <= k < |rs| ==> rs[k] == ms[k].record;
    assert forall k :: 0 <= k < |rs| ==> WellFormed(rs[k]) && Convertible(rs[k].boundingBox);
  }
}
