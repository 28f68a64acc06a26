/**
 * Span isolation (`parse_json_from_response`): cut out of a model response the text
 * from a chosen `{` to the last `}`. The search for `{` starts at the first occurrence
 * of an anchor string when there is one and at the beginning otherwise. The result is
 * the raw substring, never a parsed value.
 */
module JsonSpan {
  import opened Wrappers
  import opened Text

  /** The three reasons for returning `None`, one per diagnostic the source prints. */
  datatype SpanError = NoOpenBrace | NoCloseBrace | OpenAfterClose

  /** Where the search for `{` begins: the first occurrence of `anchor`, or 0 without one. */
  ghost predicate SearchStart(raw: string, anchor: string, k: int)
  {
    (OccursAt(raw, anchor, k) && forall j :: 0 <= j < k ==> !OccursAt(raw, anchor, j))
    || (k == 0 && forall j :: 0 <= j <= |raw| ==> !OccursAt(raw, anchor, j))
  }

  /** `s` is the first `{` at or after `k`. */
  ghost predicate FirstOpenFrom(raw: string, k: int, s: int)
  {
    0 <= k <= s < |raw| && raw[s] == '{' && forall j :: k <= j < s ==> raw[j] != '{'
  }

  /** No `{` at or after `k`. */
  ghost predicate NoOpenFrom(raw: string, k: int)
  {
    forall j :: k <= j < |raw| && 0 <= j ==> raw[j] != '{'
  }

  /** `e` is the last `}` of `raw`. */
  ghost predicate LastClose(raw: string, e: int)
  {
    0 <= e < |raw| && raw[e] == '}' && forall j :: e < j < |raw| ==> raw[j] != '}'
  }

  /** No `}` anywhere in `raw`. */
  ghost predicate NoClose(raw: string)
  {
    forall j :: 0 <= j < |raw| ==> raw[j] != '}'
  }

  /** `t` is a contiguous piece of `raw`. */
  ghost predicate IsSubstring(t: string, raw: string)
  {
    exists s :: OccursAt(raw, t, s)
  }

  /**
   * The indices of the chosen `{` and of the last `}`, or why there is no span.
   * The `{` is looked for from the anchor when `find` locates it, from 0 otherwise.
   */
  function LocateSpan(raw: string, startText: string): (r: Result<(nat, nat), SpanError>)
    ensures r.Success? ==> r.value.0 < r.value.1 < |raw|
    ensures r.Success? ==> raw[r.value.0] == '{' && raw[r.value.1] == '}'
  {
    var anchorIndex := Find(raw, startText, 0);
    var firstBrace := if anchorIndex != -1 then Find(raw, "{", anchorIndex) else Find(raw, "{", 0);
    if firstBrace == -1 then Failure(NoOpenBrace)
    else
      var lastBrace := RFind(raw, "}");
      if lastBrace == -1 then Failure(NoCloseBrace)
      else if firstBrace > lastBrace then Failure(OpenAfterClose)
      else
        OccursAtChar(raw, '{', firstBrace);
        OccursAtChar(raw, '}', lastBrace);
        Success((firstBrace, lastBrace))
  }

  /** `parse_json_from_response`: the isolated span as unparsed text, or `None`. */
  function ParseJsonFromResponse(rawResponse: string, startText: string): (r: Option<string>)
    ensures r.Some? ==> 2 <= |r.value| && r.value[0] == '{' && r.value[|r.value| - 1] == '}'
    ensures r.Some? ==> IsSubstring(r.value, rawResponse)
  {
    match LocateSpan(rawResponse, startText)
    case Failure(_) => None
    case Success((first, last)) =>
      var t := rawResponse[first..last + 1];
      assert OccursAt(rawResponse, t, first);
      Some(t)
  }

  /** Every response has a (unique) place where the search for `{` begins. */
  lemma SearchStartExists(raw: string, anchor: string) returns (k: nat)
    ensures SearchStart(raw, anchor, k)
    ensures forall k' :: SearchStart(raw, anchor, k') ==> k' == k
  {
    var a := Find(raw, anchor, 0);
    k := if a == -1 then 0 else a;
  }

  /** The `find` calls of the source start the `{` search exactly at the `SearchStart`. */
  lemma FirstBraceSearch(raw: string, anchor: string, k: int)
    requires SearchStart(raw, anchor, k)
    ensures var a := Find(raw, anchor, 0);
            (if a != -1 then Find(raw, "{", a) else Find(raw, "{", 0)) == Find(raw, "{", k)
  {
  }

  /** `find("{", k)` answers the first `{` at or after `k`, or -1 when there is none. */
  lemma FindOpen(raw: string, k: nat)
    ensures var f := Find(raw, "{", k);
            (f == -1 <==> NoOpenFrom(raw, k)) && (f != -1 ==> FirstOpenFrom(raw, k, f))
  {
    var f := Find(raw, "{", k);
    forall j | 0 <= j < |raw| { OccursAtChar(raw, '{', j); }
    if f != -1 { OccursAtChar(raw, '{', f); }
    if f == -1 && k <= |raw| {
      forall j | k <= j < |raw| ensures raw[j] != '{' { OccursAtChar(raw, '{', j); }
    }
  }

  /** `rfind("}")` answers the last `}`, or -1 when there is none. */
  lemma FindClose(raw: string)
    ensures var l := RFind(raw, "}");
            (l == -1 <==> NoClose(raw)) && (l != -1 ==> LastClose(raw, l))
  {
    var l := RFind(raw, "}");
    forall j | 0 <= j < |raw| { OccursAtChar(raw, '}', j); }
    if l != -1 { OccursAtChar(raw, '}', l); }
  }

  /**
   * The failure reasons and the span, stated without `find`: no `{` in the searched
   * region, else no `}` anywhere, else the first `{` after the last `}`; otherwise
   * the span runs from that `{` to that `}`.
   */
  lemma LocateSpanExact(raw: string, anchor: string, k: int)
    requires SearchStart(raw, anchor, k)
    ensures LocateSpan(raw, anchor) == Failure(NoOpenBrace) <==> NoOpenFrom(raw, k)
    ensures LocateSpan(raw, anchor) == Failure(NoCloseBrace) <==> !NoOpenFrom(raw, k) && NoClose(raw)
    ensures forall s, e :: FirstOpenFrom(raw, k, s) && LastClose(raw, e) ==>
              LocateSpan(raw, anchor) == if s <= e then Success((s, e)) else Failure(OpenAfterClose)
  {
    FirstBraceSearch(raw, anchor, k);
    FindOpen(raw, k);
    FindClose(raw);
  }

  /**
   * When `parse_json_from_response` returns `None`, in the terms of the text alone:
   * exactly when one of the three failure conditions holds.
   */
  lemma ParseJsonFromResponseNone(raw: string, anchor: string, k: int)
    requires SearchStart(raw, anchor, k)
    ensures ParseJsonFromResponse(raw, anchor).None? <==>
              NoOpenFrom(raw, k) || NoClose(raw) ||
              exists s, e :: FirstOpenFrom(raw, k, s) && LastClose(raw, e) && s > e
  {
    LocateSpanExact(raw, anchor, k);
    FindOpen(raw, k);
    FindClose(raw);
    if !NoOpenFrom(raw, k) && !NoClose(raw) {
      var s := Find(raw, "{", k);
      var e := RFind(raw, "}");
      assert FirstOpenFrom(raw, k, s) && LastClose(raw, e);
      forall s', e' | FirstOpenFrom(raw, k, s') && LastClose(raw, e') ensures s' == s && e' == e {
        BraceIndicesUnique(raw, k, s, s', e, e');
      }
    }
  }

  /**
   * What `parse_json_from_response` returns otherwise: the inclusive substring from the
   * first `{` of the searched region to the last `}`.
   */
  lemma ParseJsonFromResponseSpan(raw: string, anchor: string, k: int)
    requires SearchStart(raw, anchor, k)
    ensures forall s, e :: FirstOpenFrom(raw, k, s) && LastClose(raw, e) && s <= e ==>
              ParseJsonFromResponse(raw, anchor) == Some(raw[s..e + 1])
  {
    forall s, e | FirstOpenFrom(raw, k, s) && LastClose(raw, e) && s <= e
      ensures ParseJsonFromResponse(raw, anchor) == Some(raw[s..e + 1])
    {
      LocateSpanAt(raw, anchor, k, s, e);
    }
  }

  /** `LocateSpan` once the first `{` from the search start and the last `}` are known. */
  lemma LocateSpanAt(raw: string, anchor: string, k: int, s: int, e: int)
    requires SearchStart(raw, anchor, k) && FirstOpenFrom(raw, k, s) && LastClose(raw, e)
    ensures LocateSpan(raw, anchor) == if s <= e then Success((s, e)) else Failure(OpenAfterClose)
  {
    FirstBraceSearch(raw, anchor, k);
    FindOpen(raw, k);
    FindClose(raw);
    BraceIndicesUnique(raw, k, s, Find(raw, "{", k), e, RFind(raw, "}"));
  }

  /** The first `{` from `k` and the last `}` are each determined by the text. */
  lemma BraceIndicesUnique(raw: string, k: int, s: int, s': int, e: int, e': int)
    requires FirstOpenFrom(raw, k, s) && FirstOpenFrom(raw, k, s')
    requires LastClose(raw, e) && LastClose(raw, e')
    ensures s == s' && e == e'
  {
  }

  /**
   * Once the anchor is found, a `{` that stands before it is never used:
   * without a `{` after the anchor the answer is `None`.
   */
  lemma FoundAnchorRestrictsSearch(raw: string, anchor: string, k: nat)
    requires OccursAt(raw, anchor, k) && forall j :: 0 <= j < k ==> !OccursAt(raw, anchor, j)
    requires NoOpenFrom(raw, k)
    ensures ParseJsonFromResponse(raw, anchor) == None
  {
    LocateSpanExact(raw, anchor, k);
  }

  /** An empty anchor is found at index 0, so it behaves as an anchor that does not occur. */
  lemma EmptyAnchorIsNoAnchor(raw: string, anchor: string)
    requires forall j :: 0 <= j <= |raw| ==> !OccursAt(raw, anchor, j)
    ensures ParseJsonFromResponse(raw, "") == ParseJsonFromResponse(raw, anchor)
  {
    assert OccursAt(raw, "", 0);
    LocateSpanExact(raw, "", 0);
    LocateSpanExact(raw, anchor, 0);
    FindOpen(raw, 0);
    FindClose(raw);
  }

  /** Isolating again, without an anchor, gives back the isolated span itself. */
  lemma ParseJsonFromResponseIdempotent(raw: string, anchor: string)
    requires ParseJsonFromResponse(raw, anchor).Some?
    ensures ParseJsonFromResponse(ParseJsonFromResponse(raw, anchor).value, "") ==
            ParseJsonFromResponse(raw, anchor)
  {
    var t := ParseJsonFromResponse(raw, anchor).value;
    assert OccursAt(t, "", 0);
    assert FirstOpenFrom(t, 0, 0);
    assert LastClose(t, |t| - 1);
    assert t[0..|t|] == t;
    ParseJsonFromResponseSpan(t, "", 0);
  }
}
