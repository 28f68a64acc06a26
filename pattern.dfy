/**
 * The fixed regular expressions of the record reconstructor, written as a sequence
 * of tokens, and a greedy left-to-right matcher for such a sequence.
 *
 * A token is a literal, `\s*`, or a capturing group `(C+)` over one character class.
 * What a regular expression engine accepts at index `i` is stated by `Fits`: some
 * choice of one piece of text per token, each allowed by its token, whose
 * concatenation stands in the text at `i`. When every quantified token is followed by
 * text that cannot begin with a character of its own class (`NoBacktrack`), the greedy
 * matcher finds exactly that choice, so it agrees with a backtracking engine.
 */
module RecordPattern {
  import opened Wrappers
  import opened Text

  /** The character classes of the patterns: `\s`, `[^"]` and `[0-9.]`. */
  datatype Class = Spaces | NotQuote | NumberChar

  predicate InClass(c: char, cls: Class)
  {
    match cls
    case Spaces => IsSpace(c)
    case NotQuote => c != '"'
    case NumberChar => ('0' <= c <= '9') || c == '.'
  }

  /** Every character of `p` is in `cls`. */
  predicate AllIn(p: string, cls: Class)
  {
    forall k :: 0 <= k < |p| ==> InClass(p[k], cls)
  }

  /** A literal, `\s*`, or a capturing group `(cls+)`. */
  datatype Token = Lit(literal: string) | Blank | Group(cls: Class)

  /** The pieces of text a token allows. */
  predicate PieceFits(t: Token, p: string)
  {
    match t
    case Lit(s) => p == s
    case Blank => AllIn(p, Spaces)
    case Group(cls) => |p| > 0 && AllIn(p, cls)
  }

  /** `pieces` gives each token of `toks`, in order, a piece of text it allows. */
  predicate Fits(toks: seq<Token>, pieces: seq<string>)
    decreases |toks|
  {
    |toks| == |pieces| &&
    (toks == [] || (PieceFits(toks[0], pieces[0]) && Fits(toks[1..], pieces[1..])))
  }

  function Concat(pieces: seq<string>): string
  {
    if pieces == [] then [] else pieces[0] + Concat(pieces[1..])
  }

  /** Two classes that share no character. */
  predicate Disjoint(a: Class, b: Class)
  {
    (a == Spaces && b == NumberChar) || (a == NumberChar && b == Spaces)
  }

  /** Every text that `toks` allows is non-empty and begins outside `cls`. */
  predicate BeginsOutside(toks: seq<Token>, cls: Class)
    decreases |toks|
  {
    |toks| > 0 &&
    match toks[0]
    case Lit(s) => |s| > 0 && !InClass(s[0], cls)
    case Blank => Disjoint(Spaces, cls) && BeginsOutside(toks[1..], cls)
    case Group(c) => Disjoint(c, cls)
  }

  /** Each `\s*` and each group is followed by text that begins outside its class. */
  predicate NoBacktrack(toks: seq<Token>)
    decreases |toks|
  {
    |toks| == 0 ||
    ((match toks[0]
      case Lit(_) => true
      case Blank => BeginsOutside(toks[1..], Spaces)
      case Group(c) => BeginsOutside(toks[1..], c))
     && NoBacktrack(toks[1..]))
  }

  /** The end of the longest run of `cls` characters starting at `i`. */
  function RunEnd(text: string, i: nat, cls: Class): (j: nat)
    requires i <= |text|
    ensures i <= j <= |text|
    ensures forall k :: i <= k < j ==> InClass(text[k], cls)
    ensures j == |text| || !InClass(text[j], cls)
    decreases |text| - i
  {
    if i < |text| && InClass(text[i], cls) then RunEnd(text, i + 1, cls) else i
  }

  /** Where the piece of text that token `t` takes at `i` ends, or `None` if it takes none. */
  function PieceEnd(text: string, i: nat, t: Token): (r: Option<nat>)
    requires i <= |text|
    ensures r.Some? ==> i <= r.value <= |text| && PieceFits(t, text[i..r.value])
  {
    match t
    case Lit(s) => if OccursAt(text, s, i) then Some(i + |s|) else None
    case Blank => Some(RunEnd(text, i, Spaces))
    case Group(cls) => var j := RunEnd(text, i, cls); if j == i then None else Some(j)
  }

  /** `piece` put in front of the pieces of a successful match. */
  function Prepend(piece: string, r: Option<(nat, seq<string>)>): Option<(nat, seq<string>)>
  {
    match r
    case None => None
    case Some((e, pieces)) => Some((e, [piece] + pieces))
  }

  /**
   * Greedy matching of `toks` at index `i`: the end of the match and the piece of
   * text each token took, or `None`.
   */
  function MatchTokens(text: string, i: nat, toks: seq<Token>): (r: Option<(nat, seq<string>)>)
    requires i <= |text|
    ensures r.Some? ==> i <= r.value.0 <= |text| && |r.value.1| == |toks|
    decreases |toks|
  {
    if toks == [] then Some((i, []))
    else match PieceEnd(text, i, toks[0])
      case None => None
      case Some(j) => Prepend(text[i..j], MatchTokens(text, j, toks[1..]))
  }

  /** Soundness: what the matcher answers is an allowed choice of pieces that stands at `i`. */
  lemma {:induction false} MatchTokensSound(text: string, i: nat, toks: seq<Token>)
    requires i <= |text| && MatchTokens(text, i, toks).Some?
    ensures var (e, pieces) := MatchTokens(text, i, toks).value;
            Fits(toks, pieces) && text[i..e] == Concat(pieces)
    decreases |toks|
  {
    if toks != [] {
      var j := PieceEnd(text, i, toks[0]).value;
      MatchTokensSound(text, j, toks[1..]);
      var (e, rest) := MatchTokens(text, j, toks[1..]).value;
      var pieces := [text[i..j]] + rest;
      assert MatchTokens(text, i, toks).value == (e, pieces);
      assert pieces[1..] == rest;
      assert text[i..e] == text[i..j] + text[j..e];
    }
  }

  /** The matched pieces occur in the text where the match starts, and end where it ends. */
  lemma MatchTokensOccurs(text: string, i: nat, toks: seq<Token>)
    requires i <= |text| && MatchTokens(text, i, toks).Some?
    ensures var (e, pieces) := MatchTokens(text, i, toks).value;
            Fits(toks, pieces) && OccursAt(text, Concat(pieces), i) && e == i + |Concat(pieces)|
  {
    MatchTokensSound(text, i, toks);
  }

  lemma DisjointClasses(a: Class, b: Class, c: char)
    requires Disjoint(a, b)
    ensures !(InClass(c, a) && InClass(c, b))
  {
  }

  /** A text allowed by `toks` is non-empty and begins outside `cls`. */
  lemma {:induction false} BeginsOutsideFirst(toks: seq<Token>, pieces: seq<string>, cls: Class)
    requires Fits(toks, pieces) && BeginsOutside(toks, cls)
    ensures |Concat(pieces)| > 0 && !InClass(Concat(pieces)[0], cls)
  {
    assert PieceFits(toks[0], pieces[0]);
    match toks[0]
    case Lit(s) =>
    case Blank =>
      if |pieces[0]| == 0 {
        assert Fits(toks[1..], pieces[1..]);
        BeginsOutsideFirst(toks[1..], pieces[1..], cls);
      } else {
        DisjointClasses(Spaces, cls, pieces[0][0]);
      }
    case Group(c) =>
      DisjointClasses(c, cls, pieces[0][0]);
  }

  /** A run of `cls` from `i` that stops at `m` is the longest such run. */
  lemma RunEndAt(text: string, i: nat, cls: Class, m: nat)
    requires i <= m <= |text|
    requires forall k :: i <= k < m ==> InClass(text[k], cls)
    requires m == |text| || !InClass(text[m], cls)
    ensures RunEnd(text, i, cls) == m
  {
  }

  /** The first token's piece and the remaining tokens' pieces of an allowed choice. */
  lemma FitsSplit(toks: seq<Token>, pieces: seq<string>)
    requires Fits(toks, pieces) && |toks| > 0
    ensures PieceFits(toks[0], pieces[0]) && Fits(toks[1..], pieces[1..])
    ensures Concat(pieces) == pieces[0] + Concat(pieces[1..])
  {
  }

  /** The piece a token takes is the one an allowed choice gives it, when what follows cannot extend it. */
  lemma PieceEndComplete(text: string, i: nat, toks: seq<Token>, pieces: seq<string>)
    requires i <= |text| && |toks| > 0 && Fits(toks, pieces) && NoBacktrack(toks)
    requires OccursAt(text, Concat(pieces), i)
    ensures PieceEnd(text, i, toks[0]) == Some(i + |pieces[0]|)
  {
    FitsSplit(toks, pieces);
    var p, rest := pieces[0], Concat(pieces[1..]);
    var j := i + |p|;
    OccursAtSplit(text, p, rest, i);
    if toks[0].Blank? || toks[0].Group? {
      var cls := if toks[0].Blank? then Spaces else toks[0].cls;
      BeginsOutsideFirst(toks[1..], pieces[1..], cls);
      assert text[j] == rest[0] by {
        assert text[j] == text[j..j + |rest|][0];
      }
      forall k | i <= k < j ensures InClass(text[k], cls) {
        assert text[k] == text[i..j][k - i];
      }
      RunEndAt(text, i, cls, j);
    }
  }

  /** The matcher after the first token has taken the piece up to `j`. */
  lemma MatchTokensAfter(text: string, i: nat, toks: seq<Token>, j: nat)
    requires i <= |text| && |toks| > 0 && PieceEnd(text, i, toks[0]) == Some(j)
    ensures MatchTokens(text, i, toks) == Prepend(text[i..j], MatchTokens(text, j, toks[1..]))
  {
  }

  /**
   * Completeness: when the tokens cannot backtrack, any allowed choice of pieces
   * that stands in the text at `i` is the one the greedy matcher finds.
   */
  lemma {:induction false} MatchTokensComplete(text: string, i: nat, toks: seq<Token>, pieces: seq<string>)
    requires i <= |text| && Fits(toks, pieces) && NoBacktrack(toks)
    requires OccursAt(text, Concat(pieces), i)
    ensures MatchTokens(text, i, toks) == Some((i + |Concat(pieces)|, pieces))
    decreases |toks|
  {
    if toks != [] {
      FitsSplit(toks, pieces);
      var p, rest := pieces[0], Concat(pieces[1..]);
      var j := i + |p|;
      OccursAtSplit(text, p, rest, i);
      PieceEndComplete(text, i, toks, pieces);
      MatchTokensAfter(text, i, toks, j);
      assert text[i..j] == p;
      MatchTokensComplete(text, j, toks[1..], pieces[1..]);
      assert [p] + pieces[1..] == pieces;
    }
  }

  /** What decides whether a `{t} + rest` fails to be free of backtracking: the token itself. */
  lemma {:induction false} BeginsOutsideAppend(a: seq<Token>, b: seq<Token>, cls: Class)
    requires BeginsOutside(a, cls)
    ensures BeginsOutside(a + b, cls)
    decreases |a|
  {
    assert (a + b)[0] == a[0];
    if a[0].Blank? {
      assert (a + b)[1..] == a[1..] + b;
      BeginsOutsideAppend(a[1..], b, cls);
    }
  }

  /** Two pieces free of backtracking stay so when joined after a literal. */
  lemma {:induction false} NoBacktrackAppend(a: seq<Token>, b: seq<Token>)
    requires NoBacktrack(a) && NoBacktrack(b)
    requires |a| > 0 && a[|a| - 1].Lit?
    ensures NoBacktrack(a + b)
    decreases |a|
  {
    assert (a + b)[0] == a[0];
    assert (a + b)[1..] == a[1..] + b;
    if |a| > 1 {
      if !a[0].Lit? {
        BeginsOutsideAppend(a[1..], b, if a[0].Blank? then Spaces else a[0].cls);
      }
      NoBacktrackAppend(a[1..], b);
    } else {
      assert a[1..] + b == b;
    }
  }

  /** The piece at position `k` of an allowed choice is allowed by the token at `k`. */
  lemma {:induction false} FitsAt(toks: seq<Token>, pieces: seq<string>, k: nat)
    requires Fits(toks, pieces) && k < |toks|
    ensures PieceFits(toks[k], pieces[k])
    decreases k
  {
    if k > 0 {
      FitsAt(toks[1..], pieces[1..], k - 1);
    }
  }

  /** A successful match begins with the piece its first token took. */
  lemma MatchTokensFirst(text: string, i: nat, toks: seq<Token>) returns (j: nat)
    requires i <= |text| && |toks| > 0 && MatchTokens(text, i, toks).Some?
    ensures PieceEnd(text, i, toks[0]) == Some(j)
    ensures MatchTokens(text, j, toks[1..]).Some?
  {
    j := PieceEnd(text, i, toks[0]).value;
    MatchTokensAfter(text, i, toks, j);
  }
}
