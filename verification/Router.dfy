/** noqeri.router: route patterns, matched to paths in one pass. */
module Router {
  import opened Bytes
  import opened Texts

  // ----------------------------------------------------- what a route means

  /** How far the segment at the front of the text reaches. */
  function Until(s: Text): (n: nat)
    ensures n <= |s| && SLASH !in s[..n] && (n < |s| ==> s[n] == SLASH)
  {
    IndexOf(s, SLASH)
  }

  /** The text cut at its slashes. */
  function Segments(s: Text): (segments: seq<Text>)
    ensures |segments| >= 1 && segments[0] == s[..Until(s)]
  {
    Split(s, SLASH)
  }

  predicate IsParameter(p: Text) {
    p != [] && p[0] == COLON
  }

  /** A colon with a name stands for any non-empty segment; a colon alone for none. */
  predicate SegmentMatches(p: Text, q: Text) {
    if IsParameter(p) then |p| > 1 && q != [] else p == q
  }

  predicate AllMatch(ps: seq<Text>, qs: seq<Text>) {
    |ps| == |qs| && forall k :: 0 <= k < |ps| ==> SegmentMatches(ps[k], qs[k])
  }

  predicate ByteAllowed(c: Byte) {
    c != 0 && c != BACKSLASH && c != QUESTION && c != 35
  }

  predicate Valid(data: Text) {
    && 1 <= |data| <= 2048 && data[0] == SLASH
    && (forall k :: 0 <= k < |data| ==> ByteAllowed(data[k]))
    && NoDouble(data)
  }

  predicate NoDouble(s: Text) {
    forall k :: 0 < k < |s| ==> !(s[k - 1] == SLASH && s[k] == SLASH)
  }

  predicate Routes(pattern: Text, path: Text) {
    Valid(pattern) && Valid(path) && AllMatch(Segments(pattern[1..]), Segments(path[1..]))
  }

  function Filled(segments: seq<Text>): nat {
    if segments == [] then 0 else (if segments[0] == [] then 0 else 1) + Filled(segments[1..])
  }

  // ------------------------------------------------- what the meaning implies

  /** No segment but perhaps the last is empty. */
  predicate LastMayBeEmpty(segments: seq<Text>) {
    forall k :: 0 <= k < |segments| - 1 ==> segments[k] != []
  }

  /** Besides its length and bytes, a valid text begins with a slash and leaves only its last segment empty. */
  lemma ValidIff(data: Text)
    requires data != [] && data[0] == SLASH
    ensures Valid(data) <==>
      |data| <= 2048 && (forall k :: 0 <= k < |data| ==> ByteAllowed(data[k])) && LastMayBeEmpty(Segments(data[1..]))
  {
    SegmentsFilled(data);
  }

  lemma {:induction false} SegmentsFilled(data: Text)
    requires data != [] && data[0] == SLASH
    ensures NoDouble(data) <==> LastMayBeEmpty(Segments(data[1..]))
    decreases |data|
  {
    hide NoDouble, LastMayBeEmpty;
    var s := data[1..];
    var n := Until(s);
    if n < |s| {
      assert data[1..n + 1] == s[..n] && data[n + 1..] == s[n..];
      assert s[n..][1..] == s[n + 1..];
      SegmentsFilled(s[n..]);
      DoubleAt(data, n + 1);
      FirstFilled(s[..n], Segments(s[n + 1..]));
    } else {
      OneSegment(data);
    }
  }

  lemma FirstFilled(first: Text, rest: seq<Text>)
    requires rest != []
    ensures LastMayBeEmpty([first] + rest) <==> first != [] && LastMayBeEmpty(rest)
  {
    var segments := [first] + rest;
    if LastMayBeEmpty(segments) {
      assert segments[0] == first;
      forall k | 0 <= k < |rest| - 1 ensures rest[k] != [] { assert segments[k + 1] == rest[k]; }
    }
  }

  lemma OneSegment(data: Text)
    requires data != [] && data[0] == SLASH && Until(data[1..]) == |data| - 1
    ensures NoDouble(data) && LastMayBeEmpty(Segments(data[1..]))
  {
    var s := data[1..];
    forall k | 0 < k < |data| ensures data[k] != SLASH {
      assert data[k] == s[..Until(s)][k - 1];
    }
  }

  /** Two adjacent slashes stand before the next slash, or after it. */
  lemma DoubleAt(data: Text, i: nat)
    requires 0 < i < |data| && data[0] == data[i] == SLASH && SLASH !in data[1..i]
    ensures NoDouble(data) <==> i > 1 && NoDouble(data[i..])
  {
    var rest := data[i..];
    assert i == 1 ==> data[i - 1] == SLASH && !NoDouble(data);
    if NoDouble(data) {
      forall k | 0 < k < |rest| ensures !(rest[k - 1] == SLASH && rest[k] == SLASH) {
        assert rest[k - 1] == data[i + k - 1] && rest[k] == data[i + k];
      }
    }
    if i > 1 && NoDouble(rest) {
      forall k | 0 < k < |data| ensures !(data[k - 1] == SLASH && data[k] == SLASH) {
        if k < i { assert data[k] == data[1..i][k - 1]; }
        else if k == i { assert data[k - 1] == data[1..i][k - 2]; }
        else { assert rest[k - i - 1] == data[k - 1] && rest[k - i] == data[k]; }
      }
    }
  }

  /** A pattern with no parameter matches itself and nothing else. */
  lemma PlainRouteMatchesItself(pattern: Text, path: Text)
    requires Valid(pattern)
    requires forall p :: p in Segments(pattern[1..]) ==> !IsParameter(p)
    ensures Routes(pattern, path) <==> pattern == path
  {
    var ps := Segments(pattern[1..]);
    if Routes(pattern, path) {
      var qs := Segments(path[1..]);
      forall k | 0 <= k < |ps| ensures ps[k] == qs[k] {
        assert SegmentMatches(ps[k], qs[k]);
      }
      assert ps == qs;
      JoinSplit(pattern[1..], SLASH);
      JoinSplit(path[1..], SLASH);
      assert pattern == [SLASH] + pattern[1..] && path == [SLASH] + path[1..];
    }
    if pattern == path {
      forall k | 0 <= k < |ps| ensures SegmentMatches(ps[k], ps[k]) {
      }
    }
  }

  /** A colon alone names no parameter: a pattern with such a segment matches no path at
      all, and every other valid pattern matches its own text. */
  lemma MatchesItselfIff(pattern: Text)
    requires Valid(pattern)
    ensures Routes(pattern, pattern) <==> [COLON] !in Segments(pattern[1..])
    ensures (exists path :: Routes(pattern, path)) <==> [COLON] !in Segments(pattern[1..])
  {
    var ps := Segments(pattern[1..]);
    forall k | 0 <= k < |ps| ensures SegmentMatches(ps[k], ps[k]) <==> ps[k] != [COLON] {
    }
    if [COLON] in ps {
      var k :| 0 <= k < |ps| && ps[k] == [COLON];
      forall path ensures !Routes(pattern, path) {
        assert forall q :: !SegmentMatches(ps[k], q);
      }
    }
  }

  lemma {:induction false} FilledAgree(ps: seq<Text>, qs: seq<Text>)
    requires AllMatch(ps, qs)
    ensures Filled(ps) == Filled(qs)
  {
    if ps != [] {
      assert SegmentMatches(ps[0], qs[0]);
      forall k | 0 <= k < |ps| - 1 ensures SegmentMatches(ps[1..][k], qs[1..][k]) {
        assert SegmentMatches(ps[k + 1], qs[k + 1]);
      }
      FilledAgree(ps[1..], qs[1..]);
    }
  }

  /** A pattern counts as many segments as every path it matches. */
  lemma MatchKeepsSegments(pattern: Text, path: Text)
    requires Routes(pattern, path)
    ensures Filled(Segments(pattern[1..])) == Filled(Segments(path[1..]))
  {
    FilledAgree(Segments(pattern[1..]), Segments(path[1..]));
  }

  // -------------------------------------------------------------- the passes

  method RouterPatternValid(data: Text) returns (r: bool)
    ensures r <==> Valid(data)
    ensures r <==>
      && 1 <= |data| <= 2048 && data[0] == 47
      && (forall k :: 0 <= k < |data| ==> data[k] != 0 && data[k] != 35 && data[k] != 63 && data[k] != 92)
      && forall k :: 0 < k < |data| ==> data[k - 1] != 47 || data[k] != 47
  {
    if |data| == 0 || |data| > 2048 || data[0] != SLASH { return false; }
    var i := 0;
    while i < |data|
      invariant i <= |data|
      invariant forall k :: 0 <= k < i ==> ByteAllowed(data[k])
      invariant forall k :: 0 < k <= i && k < |data| ==> !(data[k - 1] == SLASH && data[k] == SLASH)
    {
      if data[i] == 0 || data[i] == BACKSLASH || data[i] == QUESTION || data[i] == 35 { return false; }
      if data[i] == SLASH && i + 1 < |data| && data[i + 1] == SLASH {
        assert data[i + 1 - 1] == SLASH;
        return false;
      }
      i := i + 1;
    }
    return true;
  }

  /** What is left agrees when the rest of a literal segment is the same on both sides. */
  predicate Within(p: Text, q: Text) {
    var ps, qs := Segments(p), Segments(q);
    ps[0] == qs[0] && AllMatch(ps[1..], qs[1..])
  }

  /** The same at the start of a segment. */
  predicate Starting(p: Text, q: Text) {
    AllMatch(Segments(p), Segments(q))
  }

  lemma SegmentsStep(s: Text)
    requires s != []
    ensures s[0] == SLASH ==> Segments(s)[0] == [] && Segments(s)[1..] == Segments(s[1..])
    ensures s[0] != SLASH ==>
      Segments(s)[0] == [s[0]] + Segments(s[1..])[0] && Segments(s)[1..] == Segments(s[1..])[1..]
  {
    var t := s[1..];
    if s[0] != SLASH {
      assert s[..Until(s)] == [s[0]] + t[..Until(t)];
      if Until(s) < |s| { assert s[Until(s) + 1..] == t[Until(t) + 1..]; }
    }
  }

  lemma StartingIs(p: Text, q: Text)
    ensures Starting(p, q) <==>
      SegmentMatches(Segments(p)[0], Segments(q)[0]) && AllMatch(Segments(p)[1..], Segments(q)[1..])
  {
    var ps, qs := Segments(p), Segments(q);
    assert ps == [ps[0]] + ps[1..] && qs == [qs[0]] + qs[1..];
    if AllMatch(ps, qs) {
      forall k | 0 <= k < |ps| - 1 ensures SegmentMatches(ps[1..][k], qs[1..][k]) {
        assert SegmentMatches(ps[k + 1], qs[k + 1]);
      }
    }
    if SegmentMatches(ps[0], qs[0]) && AllMatch(ps[1..], qs[1..]) {
      forall k | 0 <= k < |ps| ensures SegmentMatches(ps[k], qs[k]) {
        if k > 0 { assert SegmentMatches(ps[1..][k - 1], qs[1..][k - 1]); }
      }
    }
  }

  lemma WithinStep(p: Text, q: Text)
    requires p != [] && q != []
    ensures p[0] != q[0] ==> !Within(p, q)
    ensures p[0] == q[0] == SLASH ==> Within(p, q) == Starting(p[1..], q[1..])
    ensures p[0] == q[0] != SLASH ==> Within(p, q) == Within(p[1..], q[1..])
  {
    hide Segments, AllMatch;
    SegmentsStep(p);
    SegmentsStep(q);
    if p[0] == q[0] != SLASH {
      var c := [p[0]];
      var h, k := Segments(p[1..])[0], Segments(q[1..])[0];
      assert c + h == c + k <==> h == k by { assert (c + h)[1..] == h && (c + k)[1..] == k; }
    }
  }

  lemma StartingLiteral(p: Text, q: Text)
    requires p == [] || p[0] != COLON
    ensures Starting(p, q) == Within(p, q)
  {
    StartingIs(p, q);
  }

  lemma StartingParameter(p: Text, q: Text)
    requires p != [] && p[0] == COLON && q != []
    ensures Starting(p, q) == (Until(p) > 1 && q[0] != SLASH && Within(p[Until(p)..], q[Until(q)..]))
  {
    StartingIs(p, q);
    SegmentsRest(p);
    SegmentsRest(q);
  }

  lemma SegmentsRest(s: Text)
    ensures Segments(s)[1..] == Segments(s[Until(s)..])[1..]
    ensures Segments(s[Until(s)..])[0] == []
  {
    var n := Until(s);
    if n < |s| {
      assert s[n..][1..] == s[n + 1..];
      SegmentsStep(s[n..]);
    }
  }

  lemma NothingLeft(p: Text, q: Text)
    requires p == [] || q == []
    ensures Within(p, q) == Starting(p, q) == (p == q)
  {
    StartingIs(p, q);
    if p != [] { SegmentsStep(p); }
    if q != [] { SegmentsStep(q); }
    if p != [] && Until(p) == |p| { assert p[..|p|] == p; }
    if q != [] && Until(q) == |q| { assert q[..|q|] == q; }
  }

  /** What is left to decide after `a` bytes of the pattern and `b` of the path. */
  predicate Left(pattern: Text, a: nat, path: Text, b: nat)
    requires a <= |pattern| && b <= |path|
  {
    if a > 0 && pattern[a - 1] == SLASH then Starting(pattern[a..], path[b..]) else Within(pattern[a..], path[b..])
  }

  method SegmentEnd(data: Text, from: nat) returns (i: nat)
    requires from <= |data|
    ensures i == from + Until(data[from..])
  {
    i := from;
    while i < |data| && data[i] != SLASH
      invariant i <= |data| && i + Until(data[i..]) == from + Until(data[from..])
    {
      assert data[i..][1..] == data[i + 1..];
      i := i + 1;
    }
  }

  lemma LeftAtStart(pattern: Text, path: Text)
    requires Valid(pattern) && Valid(path)
    ensures Left(pattern, 0, path, 0) == Routes(pattern, path)
  {
    assert pattern[0..] == pattern && path[0..] == path;
    WithinStep(pattern, path);
  }

  lemma LeftAtEnd(pattern: Text, a: nat, path: Text, b: nat)
    requires a <= |pattern| && b <= |path| && (a == |pattern| || b == |path|)
    ensures Left(pattern, a, path, b) == (a == |pattern| && b == |path|)
  {
    NothingLeft(pattern[a..], path[b..]);
  }

  lemma LeftLiteral(pattern: Text, a: nat, path: Text, b: nat)
    requires a < |pattern| && b < |path|
    requires !(pattern[a] == COLON && a > 0 && pattern[a - 1] == SLASH)
    ensures Left(pattern, a, path, b) == (pattern[a] == path[b] && Left(pattern, a + 1, path, b + 1))
  {
    var p, q := pattern[a..], path[b..];
    assert p[1..] == pattern[a + 1..] && q[1..] == path[b + 1..];
    if a > 0 && pattern[a - 1] == SLASH { StartingLiteral(p, q); }
    WithinStep(p, q);
  }

  lemma LeftParameter(pattern: Text, a: nat, path: Text, b: nat)
    requires 0 < a < |pattern| && b < |path| && pattern[a] == COLON && pattern[a - 1] == SLASH
    ensures var a' := a + 1 + Until(pattern[a + 1..]);
      var b' := b + Until(path[b..]);
      Left(pattern, a, path, b) == (a' > a + 1 && path[b] != SLASH && Left(pattern, a', path, b'))
  {
    hide Starting, Within;
    var p, q := pattern[a..], path[b..];
    assert p[1..] == pattern[a + 1..];
    var a', b' := a + Until(p), b + Until(q);
    assert p[Until(p)..] == pattern[a'..] && q[Until(q)..] == path[b'..];
    assert pattern[a' - 1] == p[..Until(p)][Until(p) - 1];
    StartingParameter(p, q);
  }

  /** Holds exactly when the two texts are valid and match segment by segment. */
  method RouterMatch(pattern: Text, path: Text) returns (r: bool)
    ensures r <==> Routes(pattern, path)
  {
    hide Left, Routes, Until;
    var patternValid := RouterPatternValid(pattern);
    var pathValid := RouterPatternValid(path);
    if !patternValid || !pathValid {
      InvalidRoutes(pattern, path);
      return false;
    }
    LeftAtStart(pattern, path);
    var a: nat, b: nat := 0, 0;
    while a < |pattern| && b < |path|
      invariant a <= |pattern| && b <= |path|
      invariant Left(pattern, a, path, b) == Routes(pattern, path)
    {
      if pattern[a] == COLON && a > 0 && pattern[a - 1] == SLASH {
        LeftParameter(pattern, a, path, b);
        a := a + 1;
        var start := a;
        a := SegmentEnd(pattern, a);
        if a == start || path[b] == SLASH { return false; }
        b := SegmentEnd(path, b);
      } else {
        LeftLiteral(pattern, a, path, b);
        if pattern[a] != path[b] { return false; }
        a, b := a + 1, b + 1;
      }
    }
    LeftAtEnd(pattern, a, path, b);
    return a == |pattern| && b == |path|;
  }

  lemma InvalidRoutes(pattern: Text, path: Text)
    ensures Routes(pattern, path) ==> Valid(pattern) && Valid(path)
  {
  }

  /** The non-empty segments after the one that `s` begins in. */
  function Later(s: Text): nat {
    Filled(Segments(s)[1..])
  }

  lemma LaterStep(path: Text, i: nat)
    requires i < |path| && NoDouble(path)
    ensures Later(path[i..]) ==
      (if path[i] == SLASH && i + 1 < |path| then 1 else 0) + Later(path[i + 1..])
  {
    var s := path[i..];
    assert s[1..] == path[i + 1..];
    SegmentsStep(s);
    if i + 1 < |path| && path[i] == SLASH { assert path[i + 1 - 1] == SLASH && path[i + 1] != SLASH; }
  }

  lemma {:induction false} FilledIsAllButLast(segments: seq<Text>)
    requires segments != [] && LastMayBeEmpty(segments)
    ensures Filled(segments) == |segments| - if segments[|segments| - 1] == [] then 1 else 0
  {
    if |segments| > 1 {
      FirstFilled(segments[0], segments[1..]);
      assert segments == [segments[0]] + segments[1..];
      FilledIsAllButLast(segments[1..]);
    } else {
      assert segments[1..] == [];
    }
  }

  /** The number of non-empty segments of a valid path: all but perhaps the last. */
  method RouterSegments(path: Text) returns (result: int)
    ensures result == if Valid(path) then Filled(Segments(path[1..])) else -1
    ensures result == -1 <==> !Valid(path)
    ensures Valid(path) ==> var segments := Segments(path[1..]);
      result == |segments| - if segments[|segments| - 1] == [] then 1 else 0
  {
    if Valid(path) {
      ValidIff(path);
      FilledIsAllButLast(Segments(path[1..]));
    }
    var valid := RouterPatternValid(path);
    if !valid { return -1; }
    result := 0;
    var i := 0;
    assert path[0..] == path;
    SegmentsStep(path);
    while i < |path|
      invariant i <= |path| && result + Later(path[i..]) == Later(path)
    {
      hide Later;
      LaterStep(path, i);
      if path[i] == SLASH && i + 1 < |path| { result := result + 1; }
      i := i + 1;
    }
  }
}
