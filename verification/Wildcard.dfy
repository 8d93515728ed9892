/** What a wildcard pattern means, apart from how any matcher reads it: a list
    of elements, each of which takes a piece of the input. */
module Wildcard {
  import opened Bytes

  datatype Element = Star | Any | Lit(c: Byte)

  /** In slash-safe mode no wildcard may take a `/`. */
  predicate Passes(c: Byte, slashSafe: bool) {
    !slashSafe || c != SLASH
  }

  predicate AllPass(s: Text, slashSafe: bool) {
    forall i :: 0 <= i < |s| ==> Passes(s[i], slashSafe)
  }

  predicate Takes(e: Element, piece: Text, slashSafe: bool) {
    match e
    case Star => AllPass(piece, slashSafe)
    case Any => |piece| == 1 && Passes(piece[0], slashSafe)
    case Lit(c) => piece == [c]
  }

  function Concat(pieces: seq<Text>): Text {
    if pieces == [] then [] else pieces[0] + Concat(pieces[1..])
  }

  /** The declarative meaning: the input can be cut into one piece per element. */
  ghost predicate Cuts(es: seq<Element>, input: Text, pieces: seq<Text>, slashSafe: bool) {
    && |pieces| == |es|
    && Concat(pieces) == input
    && forall k :: 0 <= k < |es| ==> Takes(es[k], pieces[k], slashSafe)
  }

  /** The recursive form of the same relation. */
  predicate Matches(es: seq<Element>, input: Text, slashSafe: bool)
    decreases |es|, |input|
  {
    if es == [] then input == []
    else match es[0]
      case Star =>
        || Matches(es[1..], input, slashSafe)
        || (input != [] && Passes(input[0], slashSafe) && Matches(es, input[1..], slashSafe))
      case Any => input != [] && Passes(input[0], slashSafe) && Matches(es[1..], input[1..], slashSafe)
      case Lit(c) => input != [] && input[0] == c && Matches(es[1..], input[1..], slashSafe)
  }

  lemma {:induction false} CutsAreMatches(es: seq<Element>, input: Text, pieces: seq<Text>, slashSafe: bool)
    requires Cuts(es, input, pieces, slashSafe)
    ensures Matches(es, input, slashSafe)
    decreases |es|, |input|
  {
    if es != [] {
      var first, rest := pieces[0], Concat(pieces[1..]);
      assert input == first + rest;
      assert Takes(es[0], first, slashSafe);
      if first == [] {
        assert input == rest;
        CutsAreMatches(es[1..], rest, pieces[1..], slashSafe);
      } else if es[0].Star? {
        var shorter := pieces[0 := first[1..]];
        assert Concat(shorter) == first[1..] + rest by { assert shorter[1..] == pieces[1..]; }
        assert input[1..] == first[1..] + rest;
        CutsAreMatches(es, input[1..], shorter, slashSafe);
      } else {
        assert input[1..] == rest;
        CutsAreMatches(es[1..], rest, pieces[1..], slashSafe);
      }
    }
  }

  lemma {:induction false} MatchesCut(es: seq<Element>, input: Text, slashSafe: bool) returns (pieces: seq<Text>)
    requires Matches(es, input, slashSafe)
    ensures Cuts(es, input, pieces, slashSafe)
    decreases |es|, |input|
  {
    if es == [] {
      pieces := [];
    } else if es[0].Star? && !Matches(es[1..], input, slashSafe) {
      var tail := MatchesCut(es, input[1..], slashSafe);
      pieces := tail[0 := [input[0]] + tail[0]];
      assert Takes(es[0], tail[0], slashSafe);
      assert pieces[1..] == tail[1..];
      assert input == [input[0]] + input[1..];
    } else {
      var n := if es[0].Star? then 0 else 1;
      var tail := MatchesCut(es[1..], input[n..], slashSafe);
      pieces := [input[..n]] + tail;
      assert pieces[1..] == tail;
      assert input == input[..n] + input[n..];
    }
  }

  /** The recursive relation is exactly the declarative one. */
  lemma MatchesMeansCut(es: seq<Element>, input: Text, slashSafe: bool)
    ensures Matches(es, input, slashSafe) <==> exists pieces :: Cuts(es, input, pieces, slashSafe)
  {
    if Matches(es, input, slashSafe) {
      var pieces := MatchesCut(es, input, slashSafe);
    }
    forall pieces | Cuts(es, input, pieces, slashSafe) ensures Matches(es, input, slashSafe) {
      CutsAreMatches(es, input, pieces, slashSafe);
    }
  }

  lemma {:induction false} MatchJoin(a: seq<Element>, b: seq<Element>, s: Text, t: Text, slashSafe: bool)
    requires Matches(a, s, slashSafe) && Matches(b, t, slashSafe)
    ensures Matches(a + b, s + t, slashSafe)
    decreases |a|, |s|
  {
    if a == [] {
      assert a + b == b && s + t == t;
    } else {
      assert (a + b)[1..] == a[1..] + b;
      if s != [] { assert (s + t)[1..] == s[1..] + t; }
      if a[0].Star? {
        if Matches(a[1..], s, slashSafe) { MatchJoin(a[1..], b, s, t, slashSafe); }
        else { MatchJoin(a, b, s[1..], t, slashSafe); }
      } else {
        MatchJoin(a[1..], b, s[1..], t, slashSafe);
      }
    }
  }

  lemma {:induction false} MatchSplit(a: seq<Element>, b: seq<Element>, w: Text, slashSafe: bool) returns (k: nat)
    requires Matches(a + b, w, slashSafe)
    ensures k <= |w| && Matches(a, w[..k], slashSafe) && Matches(b, w[k..], slashSafe)
    decreases |a|, |w|
  {
    if a == [] {
      assert a + b == b && w[0..] == w;
      k := 0;
    } else {
      assert (a + b)[1..] == a[1..] + b;
      if a[0].Star? && Matches((a + b)[1..], w, slashSafe) {
        k := MatchSplit(a[1..], b, w, slashSafe);
      } else {
        var rest := if a[0].Star? then a else a[1..];
        assert rest + b == if a[0].Star? then a + b else (a + b)[1..];
        var j := MatchSplit(rest, b, w[1..], slashSafe);
        k := j + 1;
        assert w[..k][1..] == w[1..][..j] && w[k..] == w[1..][j..];
      }
    }
  }

  lemma {:induction false} StarTakes(s: Text, slashSafe: bool)
    ensures Matches([Star], s, slashSafe) <==> AllPass(s, slashSafe)
    decreases |s|
  {
    assert [Star][1..] == [];
    if s != [] {
      StarTakes(s[1..], slashSafe);
      assert s == [s[0]] + s[1..];
    }
  }

  lemma OneByte(e: Element, s: Text, slashSafe: bool)
    requires !e.Star?
    ensures Matches([e], s, slashSafe) <==> Takes(e, s, slashSafe)
  {
    assert [e][1..] == [];
    if s != [] { assert s == [s[0]] + s[1..]; }
  }

  /** Slash-safe matching is a restriction of plain matching. */
  lemma {:induction false} SafeMatchIsPlain(es: seq<Element>, input: Text)
    requires Matches(es, input, true)
    ensures Matches(es, input, false)
    decreases |es|, |input|
  {
    if es != [] {
      if es[0].Star? && Matches(es[1..], input, true) { SafeMatchIsPlain(es[1..], input); }
      else if es[0].Star? { SafeMatchIsPlain(es, input[1..]); }
      else { SafeMatchIsPlain(es[1..], input[1..]); }
    }
  }

  /** The fewest bytes a list of elements can match. */
  function MinLength(es: seq<Element>): nat {
    if es == [] then 0 else (if es[0].Star? then 0 else 1) + MinLength(es[1..])
  }

  lemma {:induction false} MatchIsLongEnough(es: seq<Element>, input: Text, slashSafe: bool)
    requires Matches(es, input, slashSafe)
    ensures |input| >= MinLength(es)
    decreases |es|, |input|
  {
    if es != [] {
      if es[0].Star? && Matches(es[1..], input, slashSafe) { MatchIsLongEnough(es[1..], input, slashSafe); }
      else if es[0].Star? { MatchIsLongEnough(es, input[1..], slashSafe); }
      else { MatchIsLongEnough(es[1..], input[1..], slashSafe); }
    }
  }

  function Lits(s: Text): (es: seq<Element>)
    ensures |es| == |s| && forall k :: 0 <= k < |s| ==> es[k] == Lit(s[k])
  {
    seq(|s|, i requires 0 <= i < |s| => Lit(s[i]))
  }

  lemma {:induction false} LitsMatchThemselves(s: Text, input: Text, slashSafe: bool)
    ensures Matches(Lits(s), input, slashSafe) <==> input == s
  {
    if s != [] {
      assert Lits(s)[1..] == Lits(s[1..]);
      if input != [] {
        LitsMatchThemselves(s[1..], input[1..], slashSafe);
        assert input == [input[0]] + input[1..] && s == [s[0]] + s[1..];
      }
    }
  }
}
