/**
 * Pattern-based reconstruction (`parse_and_reconstruct_fields`): recover field records
 * from text that need not be valid JSON by scanning it with two fixed record patterns,
 * one for keys written with an escaped underscore (`field\_name`) and one for plain
 * keys (`field_name`). All matches of the escaped pattern come first, in scan order,
 * then all matches of the plain pattern; nothing is merged or removed.
 */
module Reconstruct {
  import opened Wrappers
  import opened Text
  import opened RecordPattern
  import opened FieldRecords

  /** The two spellings of the record keys. */
  datatype Variant = Escaped | Standard

  function NameKey(v: Variant): string
  {
    if v == Escaped then "\"field\\_name\":" else "\"field_name\":"
  }

  function BoxKey(v: Variant): string
  {
    if v == Escaped then "\"bounding\\_box\":" else "\"bounding_box\":"
  }

  /** `\s*` followed by the literal `lit`. */
  function Gap(lit: string): seq<Token>
  {
    [Blank, Lit(lit)]
  }

  /** `\s*([0-9.]+)` followed by a comma. */
  function NumberThenComma(): seq<Token>
  {
    [Blank, Group(NumberChar), Lit(",")]
  }

  /** `\s*"([^"]+)",`: the quoted field name. */
  function QuotedName(): seq<Token>
  {
    [Blank, Lit("\""), Group(NotQuote), Lit("\",")]
  }

  /** `\s*([0-9.]+)\s*\}`: the last coordinate and the closing brace of the box. */
  function LastNumber(): seq<Token>
  {
    [Blank, Group(NumberChar), Blank, Lit("}")]
  }

  /** `\{\s*"field_name":\s*"([^"]+)",\s*"bounding_box":\s*\{`, keys spelt as `v` spells them. */
  function Header(v: Variant): seq<Token>
  {
    [Lit("{")] + Gap(NameKey(v)) + QuotedName() + Gap(BoxKey(v)) + Gap("{")
  }

  /** `\s*"x":\s*([0-9.]+),\s*"y":\s*([0-9.]+),` */
  function XAndY(): seq<Token>
  {
    Gap("\"x\":") + NumberThenComma() + Gap("\"y\":") + NumberThenComma()
  }

  /** `\s*"width":\s*([0-9.]+),\s*"height":\s*([0-9.]+)\s*\}\s*\}` */
  function WidthAndHeight(): seq<Token>
  {
    Gap("\"width\":") + NumberThenComma() + Gap("\"height\":") + LastNumber() + Gap("}")
  }

  /** `pattern_escaped` (for `Escaped`) and `pattern_standard` (for `Standard`). */
  function Pattern(v: Variant): seq<Token>
  {
    Header(v) + XAndY() + WidthAndHeight()
  }

  lemma HeaderShape(v: Variant)
    ensures |Header(v)| == 11
    ensures Header(v)[0] == Lit("{") && Header(v)[1] == Blank && Header(v)[2] == Lit(NameKey(v))
    ensures Header(v)[5] == Group(NotQuote) && Header(v)[10] == Lit("{")
  {
  }

  lemma XAndYShape()
    ensures |XAndY()| == 10 && XAndY()[3] == Group(NumberChar) && XAndY()[8] == Group(NumberChar)
    ensures XAndY()[9] == Lit(",")
  {
  }

  lemma WidthAndHeightShape()
    ensures |WidthAndHeight()| == 13
    ensures WidthAndHeight()[3] == Group(NumberChar) && WidthAndHeight()[8] == Group(NumberChar)
    ensures WidthAndHeight()[12] == Lit("}")
  {
  }

  /** Where the pattern's literals and groups stand. */
  lemma PatternShape(v: Variant)
    ensures |Pattern(v)| == 34
    ensures Pattern(v)[0] == Lit("{") && Pattern(v)[1] == Blank && Pattern(v)[2] == Lit(NameKey(v))
    ensures Pattern(v)[5] == Group(NotQuote)
    ensures Pattern(v)[14] == Group(NumberChar) && Pattern(v)[19] == Group(NumberChar)
    ensures Pattern(v)[24] == Group(NumberChar) && Pattern(v)[29] == Group(NumberChar)
  {
    HeaderShape(v);
    XAndYShape();
    WidthAndHeightShape();
    var h, c := Header(v) + XAndY(), WidthAndHeight();
    assert Pattern(v) == h + c;
    assert h[14] == XAndY()[3] && h[19] == XAndY()[8];
  }

  /** The record read from the pieces of a match: groups 1 to 5 of the pattern. */
  function RecordOf(pieces: seq<string>): FieldRecord
    requires |pieces| == 34
  {
    FieldRecord(pieces[5], BoundingBox(pieces[14], pieces[19], pieces[24], pieces[29]))
  }

  /** `Gap(lit)` cannot backtrack when `lit` begins with a non-space. */
  lemma GapNoBacktrack(lit: string)
    requires |lit| > 0 && !IsSpace(lit[0])
    ensures NoBacktrack(Gap(lit))
  {
    assert Gap(lit)[1..] == [Lit(lit)];
    assert [Lit(lit)][1..] == [];
  }

  lemma SegmentsNoBacktrack()
    ensures NoBacktrack(QuotedName()) && NoBacktrack(NumberThenComma()) && NoBacktrack(LastNumber())
  {
    var name, number, last := QuotedName(), NumberThenComma(), LastNumber();
    assert name[1..][1..][1..] == [Lit("\",")];
    assert name[1..][1..] == [Group(NotQuote), Lit("\",")];
    assert NoBacktrack(name[1..][1..]);
    assert NoBacktrack(name);
    assert number[1..][1..] == [Lit(",")];
    assert NoBacktrack(number[1..]);
    assert NoBacktrack(number);
    assert last[1..][1..] == Gap("}");
    GapNoBacktrack("}");
    assert BeginsOutside(last[1..][1..], NumberChar);
    assert NoBacktrack(last[1..]);
  }

  lemma HeaderNoBacktrack(v: Variant)
    ensures NoBacktrack(Header(v))
  {
    SegmentsNoBacktrack();
    GapNoBacktrack(NameKey(v));
    GapNoBacktrack(BoxKey(v));
    GapNoBacktrack("{");
    var acc: seq<Token> := [Lit("{")];
    assert NoBacktrack(acc);
    NoBacktrackAppend(acc, Gap(NameKey(v)));
    acc := acc + Gap(NameKey(v));
    NoBacktrackAppend(acc, QuotedName());
    acc := acc + QuotedName();
    NoBacktrackAppend(acc, Gap(BoxKey(v)));
    acc := acc + Gap(BoxKey(v));
    NoBacktrackAppend(acc, Gap("{"));
  }

  lemma XAndYNoBacktrack()
    ensures NoBacktrack(XAndY())
  {
    SegmentsNoBacktrack();
    GapNoBacktrack("\"x\":");
    GapNoBacktrack("\"y\":");
    var acc := Gap("\"x\":");
    NoBacktrackAppend(acc, NumberThenComma());
    acc := acc + NumberThenComma();
    NoBacktrackAppend(acc, Gap("\"y\":"));
    acc := acc + Gap("\"y\":");
    NoBacktrackAppend(acc, NumberThenComma());
  }

  lemma WidthAndHeightNoBacktrack()
    ensures NoBacktrack(WidthAndHeight())
  {
    SegmentsNoBacktrack();
    GapNoBacktrack("\"width\":");
    GapNoBacktrack("\"height\":");
    GapNoBacktrack("}");
    var acc := Gap("\"width\":");
    NoBacktrackAppend(acc, NumberThenComma());
    acc := acc + NumberThenComma();
    NoBacktrackAppend(acc, Gap("\"height\":"));
    acc := acc + Gap("\"height\":");
    NoBacktrackAppend(acc, LastNumber());
    acc := acc + LastNumber();
    NoBacktrackAppend(acc, Gap("}"));
  }

  lemma HeaderXAndYNoBacktrack(v: Variant)
    ensures NoBacktrack(Header(v) + XAndY())
  {
    HeaderNoBacktrack(v);
    XAndYNoBacktrack();
    HeaderShape(v);
    NoBacktrackAppend(Header(v), XAndY());
  }

  /** Both patterns are free of backtracking, so greedy matching decides them. */
  lemma PatternNoBacktrack(v: Variant)
    ensures NoBacktrack(Pattern(v))
  {
    HeaderXAndYNoBacktrack(v);
    WidthAndHeightNoBacktrack();
    HeaderShape(v);
    XAndYShape();
    var h := Header(v) + XAndY();
    assert h[|h| - 1] == XAndY()[9];
    NoBacktrackAppend(h, WidthAndHeight());
  }

  /** What every match of the pattern captures: groups over their classes, non-empty. */
  lemma PatternCaptures(v: Variant, pieces: seq<string>)
    requires Fits(Pattern(v), pieces)
    ensures |pieces| == 34 && pieces[0] == "{" && |Concat(pieces)| > 0
    ensures WellFormed(RecordOf(pieces))
  {
    PatternShape(v);
    FitsSplit(Pattern(v), pieces);
    FitsAt(Pattern(v), pieces, 5);
    FitsAt(Pattern(v), pieces, 14);
    FitsAt(Pattern(v), pieces, 19);
    FitsAt(Pattern(v), pieces, 24);
    FitsAt(Pattern(v), pieces, 29);
  }

  /** The regular-expression meaning of a match of `v`'s pattern at `i` with these pieces. */
  ghost predicate PatternMatch(text: string, i: nat, v: Variant, pieces: seq<string>)
  {
    Fits(Pattern(v), pieces) && OccursAt(text, Concat(pieces), i)
  }

  /**
   * One attempt of `v`'s pattern at index `i`, as `finditer` makes it: the record
   * captured and the span it was read from, or `None`.
   */
  function MatchAt(text: string, i: nat, v: Variant): (r: Option<RecordMatch>)
    requires i <= |text|
    ensures r.Some? ==> r.value.start == i < r.value.end <= |text|
    ensures r.Some? ==> WellFormed(r.value.record)
  {
    match MatchTokens(text, i, Pattern(v))
    case None => None
    case Some((e, pieces)) =>
      MatchTokensSound(text, i, Pattern(v));
      PatternCaptures(v, pieces);
      Some(RecordMatch(i, e, RecordOf(pieces)))
  }

  /** `MatchAt` reports the record read from the pieces the token matcher returns. */
  lemma MatchAtOfTokens(text: string, i: nat, v: Variant, e: nat, pieces: seq<string>)
    requires i <= |text| && MatchTokens(text, i, Pattern(v)) == Some((e, pieces))
    ensures |pieces| == 34 && MatchAt(text, i, v) == Some(RecordMatch(i, e, RecordOf(pieces)))
  {
  }

  /** Soundness of `MatchAt`: a match it reports is a match of the regular expression. */
  lemma MatchAtSound(text: string, i: nat, v: Variant) returns (pieces: seq<string>)
    requires i <= |text| && MatchAt(text, i, v).Some?
    ensures PatternMatch(text, i, v, pieces)
    ensures MatchAt(text, i, v) == Some(RecordMatch(i, i + |Concat(pieces)|, RecordOf(pieces)))
  {
    var r := MatchTokens(text, i, Pattern(v));
    MatchTokensOccurs(text, i, Pattern(v));
    pieces := r.value.1;
    MatchAtOfTokens(text, i, v, r.value.0, pieces);
  }

  /** Completeness of `MatchAt`: a match of the regular expression at `i` is the one reported. */
  lemma MatchAtComplete(text: string, i: nat, v: Variant, pieces: seq<string>)
    requires i <= |text| && PatternMatch(text, i, v, pieces)
    ensures MatchAt(text, i, v) == Some(RecordMatch(i, i + |Concat(pieces)|, RecordOf(pieces)))
  {
    PatternMatchTokens(text, i, v, pieces);
    MatchAtOfTokens(text, i, v, i + |Concat(pieces)|, pieces);
  }

  /** The token matcher finds every match of the regular expression, pieces and all. */
  lemma PatternMatchTokens(text: string, i: nat, v: Variant, pieces: seq<string>)
    requires i <= |text| && PatternMatch(text, i, v, pieces)
    ensures MatchTokens(text, i, Pattern(v)) == Some((i + |Concat(pieces)|, pieces))
  {
    PatternNoBacktrack(v);
    MatchTokensComplete(text, i, Pattern(v), pieces);
  }

  /** A record's text written twice matches at both copies. */
  lemma RecordTwice(v: Variant, pieces: seq<string>)
    requires Fits(Pattern(v), pieces)
    ensures var r := Concat(pieces);
            0 < |r| &&
            MatchAt(r + r, 0, v) == Some(RecordMatch(0, |r|, RecordOf(pieces))) &&
            MatchAt(r + r, |r|, v) == Some(RecordMatch(|r|, 2 * |r|, RecordOf(pieces)))
  {
    var r := Concat(pieces);
    OccursInAppend(r, r);
    MatchAtComplete(r + r, 0, v, pieces);
    MatchAtComplete(r + r, |r|, v, pieces);
  }

  /**
   * `MatchAt` is exactly the regular expression: it succeeds when some choice of pieces
   * matches at `i`, and then it reports that choice's record and span.
   */
  lemma MatchAtExact(text: string, i: nat, v: Variant)
    requires i <= |text|
    ensures MatchAt(text, i, v).Some? <==> exists pieces :: PatternMatch(text, i, v, pieces)
    ensures forall pieces :: PatternMatch(text, i, v, pieces) ==>
              MatchAt(text, i, v) == Some(RecordMatch(i, i + |Concat(pieces)|, RecordOf(pieces)))
  {
    if MatchAt(text, i, v).Some? {
      var pieces := MatchAtSound(text, i, v);
    }
    forall pieces | PatternMatch(text, i, v, pieces)
      ensures MatchAt(text, i, v) == Some(RecordMatch(i, i + |Concat(pieces)|, RecordOf(pieces)))
    {
      MatchAtComplete(text, i, v, pieces);
    }
  }

  /**
   * No index matches both patterns: after `{` and the same run of whitespace the
   * two name keys differ (`\` against `_`).
   */
  lemma VariantsExclusive(text: string, i: nat)
    requires i <= |text|
    ensures MatchAt(text, i, Escaped).None? || MatchAt(text, i, Standard).None?
  {
    if MatchAt(text, i, Escaped).Some? && MatchAt(text, i, Standard).Some? {
      var j := NameKeyAfterBlank(text, i, Escaped);
      NameKeysDiffer(text, j);
      var j' := NameKeyAfterBlank(text, i, Standard);
    }
  }

  /** The two name keys never stand at the same index. */
  lemma NameKeysDiffer(text: string, j: nat)
    requires OccursAt(text, NameKey(Escaped), j)
    ensures !OccursAt(text, NameKey(Standard), j)
  {
    assert text[j + 6] == text[j..j + 14][6];
  }

  /** A match of `v` has its name key right after `{` and the longest run of whitespace. */
  lemma NameKeyAfterBlank(text: string, i: nat, v: Variant) returns (j: nat)
    requires i <= |text| && MatchAt(text, i, v).Some?
    ensures i < |text| && j == RunEnd(text, i + 1, Spaces) && OccursAt(text, NameKey(v), j)
  {
    var toks := Pattern(v);
    PatternShape(v);
    var j1 := MatchTokensFirst(text, i, toks);
    assert toks[1..][0] == Blank && toks[1..][1..][0] == Lit(NameKey(v));
    var j2 := MatchTokensFirst(text, j1, toks[1..]);
    var j3 := MatchTokensFirst(text, j2, toks[1..][1..]);
    j := j2;
  }
}
