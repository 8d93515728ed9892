/** noqeri.regex_lite: literal search and wildcards. */
module RegexLite {
  import opened Bytes
  import opened Wildcard
  import opened Glob
  import GlobMeaning

  /* The matcher's loop compares bytes before it looks for a star, so a star
     standing against a `*` byte of the value is spent on that byte alone.
     `RegexReads` is that reading; `ElementsOf` is the documented meaning. */

  function ElementsOf(pattern: Text): (es: seq<Element>)
    ensures |es| == |pattern| && forall k :: 0 <= k < |es| ==> es[k] == ElementOf(pattern[k])
  {
    seq(|pattern|, i requires 0 <= i < |pattern| => ElementOf(pattern[i]))
  }

  predicate Same(p: Byte, c: Byte) {
    p == c || p == QUESTION
  }

  /** Whether the pattern can be read from here or, when `anywhere`, from some later point. */
  predicate ReadsFrom(pattern: Text, value: Text, anywhere: bool)
    decreases |pattern|, anywhere, |value|
  {
    if anywhere then
      ReadsFrom(pattern, value, false) || (value != [] && ReadsFrom(pattern, value[1..], true))
    else if pattern == [] then value == []
    else if value != [] && Same(pattern[0], value[0]) then ReadsFrom(pattern[1..], value[1..], false)
    else pattern[0] == STAR && ReadsFrom(pattern[1..], value, true)
  }

  predicate RegexReads(pattern: Text, value: Text) {
    ReadsFrom(pattern, value, false)
  }

  lemma {:induction false} AnywhereFrom(pattern: Text, value: Text, k: nat)
    requires k <= |value| && ReadsFrom(pattern, value[k..], false)
    ensures ReadsFrom(pattern, value, true)
    decreases k
  {
    if k == 0 { assert value[0..] == value; }
    else {
      assert value[1..][k - 1..] == value[k..];
      AnywhereFrom(pattern, value[1..], k - 1);
    }
  }

  lemma {:induction false} AnywhereAt(pattern: Text, value: Text) returns (k: nat)
    requires ReadsFrom(pattern, value, true)
    ensures k <= |value| && ReadsFrom(pattern, value[k..], false)
    decreases |value|
  {
    if ReadsFrom(pattern, value, false) {
      k := 0;
      assert value[0..] == value;
    } else {
      var j := AnywhereAt(pattern, value[1..]);
      k := j + 1;
      assert value[k..] == value[1..][j..];
    }
  }

  // ----------------------------------------------------------------- the loop

  /** `rest` is what is left of `pattern` after `n` bytes spent one against one. */
  ghost predicate Spends(pattern: Text, value: Text, rest: Text, n: nat)
    decreases n
  {
    && n <= |value|
    && if n == 0 then pattern == rest
       else pattern != [] && Same(pattern[0], value[0]) && Spends(pattern[1..], value[1..], rest, n - 1)
  }

  lemma {:induction false} SpendOne(pattern: Text, value: Text, rest: Text, n: nat)
    requires Spends(pattern, value, rest, n) && n < |value| && rest != [] && Same(rest[0], value[n])
    ensures Spends(pattern, value, rest[1..], n + 1)
    decreases n
  {
    if n == 0 {
      assert Spends(rest[1..], value[1..], rest[1..], 0);
    } else {
      assert value[1..][n - 1] == value[n];
      SpendOne(pattern[1..], value[1..], rest, n - 1);
    }
  }

  lemma {:induction false} SpendKeepsReads(pattern: Text, value: Text, rest: Text, n: nat)
    requires Spends(pattern, value, rest, n)
    ensures ReadsFrom(pattern, value, false) == ReadsFrom(rest, value[n..], false)
    decreases n
  {
    if n == 0 { assert value[0..] == value; }
    else {
      assert value[1..][n - 1..] == value[n..];
      SpendKeepsReads(pattern[1..], value[1..], rest, n - 1);
    }
  }

  /** A star about to open against the rest of the value, or the end of the value. */
  predicate Opens(rest: Text, value: Text, n: nat)
    requires n <= |value|
  {
    n == |value| || (rest != [] && rest[0] == STAR && !Same(rest[0], value[n]))
  }

  /** Keeping only the last star loses nothing: what a later start can read,
      the star reached first can read too. */
  lemma {:induction false} LastStarSuffices(pattern: Text, value: Text, rest: Text, n: nat, k: nat)
    requires Spends(pattern, value, rest, n) && Opens(rest, value, n)
    requires k <= |value| && ReadsFrom(pattern, value[k..], false)
    ensures ReadsFrom(rest, value[n..], false)
    decreases n
  {
    if k == 0 {
      assert value[0..] == value;
      SpendKeepsReads(pattern, value, rest, n);
    } else if n == 0 {
      assert value[0..] == value;
      var late := value[k..];
      if late != [] && Same(pattern[0], late[0]) {
        assert late[1..] == value[k + 1..];
        AnywhereFrom(pattern[1..], value, k + 1);
      } else {
        var j := AnywhereAt(pattern[1..], late);
        assert late[j..] == value[k + j..];
        AnywhereFrom(pattern[1..], value, k + j);
      }
    } else {
      var late := value[k..];
      var tail := value[1..];
      assert tail[n - 1..] == value[n..] && (n < |value| ==> tail[n - 1] == value[n]);
      if late != [] && Same(pattern[0], late[0]) {
        assert late[1..] == tail[k..];
        LastStarSuffices(pattern[1..], tail, rest, n - 1, k);
      } else {
        var j := AnywhereAt(pattern[1..], late);
        assert late[j..] == tail[k - 1 + j..];
        LastStarSuffices(pattern[1..], tail, rest, n - 1, k - 1 + j);
      }
    }
  }

  /** What the loop knows, as for the glob matcher. */
  ghost predicate Tracks(answer: bool, pattern: Text, value: Text, i: nat, j: nat, star: nat, restart: nat) {
    && i <= |pattern| && restart <= j <= |value| && star <= |pattern|
    && if star == |pattern| then
         answer == ReadsFrom(pattern[i..], value[j..], false)
       else
         && star < i
         && answer == ReadsFrom(pattern[star + 1..], value[restart..], true)
         && Spends(pattern[star + 1..], value[restart..], pattern[i..], j - restart)
  }

  lemma TracksStart(pattern: Text, value: Text)
    ensures Tracks(RegexReads(pattern, value), pattern, value, 0, 0, |pattern|, 0)
  {
    assert pattern[0..] == pattern && value[0..] == value;
  }

  lemma TracksByte(answer: bool, pattern: Text, value: Text, i: nat, j: nat, star: nat, restart: nat)
    requires Tracks(answer, pattern, value, i, j, star, restart)
    requires i < |pattern| && j < |value| && Same(pattern[i], value[j])
    ensures Tracks(answer, pattern, value, i + 1, j + 1, star, restart)
  {
    assert pattern[i..][1..] == pattern[i + 1..] && value[j..][1..] == value[j + 1..];
    if star < |pattern| {
      assert value[restart..][j - restart] == value[j];
      SpendOne(pattern[star + 1..], value[restart..], pattern[i..], j - restart);
    }
  }

  lemma {:induction false} LastStarDecides(pattern: Text, value: Text, rest: Text, n: nat)
    requires Spends(pattern, value, rest, n) && Opens(rest, value, n)
    ensures ReadsFrom(pattern, value, true) == ReadsFrom(rest, value[n..], false)
  {
    SpendKeepsReads(pattern, value, rest, n);
    if ReadsFrom(pattern, value, true) {
      var k := AnywhereAt(pattern, value);
      LastStarSuffices(pattern, value, rest, n, k);
    }
  }

  lemma TracksStar(answer: bool, pattern: Text, value: Text, i: nat, j: nat, star: nat, restart: nat)
    requires Tracks(answer, pattern, value, i, j, star, restart)
    requires i < |pattern| && j < |value| && pattern[i] == STAR && !Same(pattern[i], value[j])
    ensures Tracks(answer, pattern, value, i + 1, j, i, j)
  {
    assert pattern[i..][1..] == pattern[i + 1..] && value[j..][0] == value[j];
    if star < |pattern| {
      assert value[restart..][j - restart..] == value[j..] && value[restart..][j - restart] == value[j];
      LastStarDecides(pattern[star + 1..], value[restart..], pattern[i..], j - restart);
    }
  }

  lemma TracksRetry(answer: bool, pattern: Text, value: Text, i: nat, j: nat, star: nat, restart: nat)
    requires Tracks(answer, pattern, value, i, j, star, restart) && j < |value|
    requires i == |pattern| || (pattern[i] != STAR && !Same(pattern[i], value[j]))
    ensures star < |pattern| ==> Tracks(answer, pattern, value, star + 1, restart + 1, star, restart + 1)
    ensures star == |pattern| ==> !answer
  {
    assert !ReadsFrom(pattern[i..], value[j..], false);
    if star < |pattern| {
      assert value[restart..][j - restart..] == value[j..] && value[restart..][1..] == value[restart + 1..];
      SpendKeepsReads(pattern[star + 1..], value[restart..], pattern[i..], j - restart);
    }
  }

  lemma TracksToEnd(answer: bool, pattern: Text, value: Text, i: nat, star: nat, restart: nat)
    requires Tracks(answer, pattern, value, i, |value|, star, restart)
    ensures answer == ReadsFrom(pattern[i..], [], false)
  {
    assert value[|value|..] == [];
    if star < |pattern| {
      assert value[restart..][|value| - restart..] == [];
      LastStarDecides(pattern[star + 1..], value[restart..], pattern[i..], |value| - restart);
    }
  }

  lemma TrailingStar(pattern: Text, i: nat)
    requires i <= |pattern|
    ensures i < |pattern| && pattern[i] == STAR ==>
      ReadsFrom(pattern[i..], [], false) == ReadsFrom(pattern[i + 1..], [], false)
    ensures i == |pattern| || pattern[i] != STAR ==> ReadsFrom(pattern[i..], [], false) == (i == |pattern|)
  {
    if i < |pattern| { assert pattern[i..][1..] == pattern[i + 1..]; }
  }

  /** The loop decides `RegexReads`, in a number of iterations linear in each length. */
  method RegexWildcardMatch(pattern: Text, value: Text) returns (r: bool, ghost steps: nat)
    ensures r == RegexReads(pattern, value)
    ensures steps <= (|value| + 1) * |pattern| + |value|
  {
    hide ReadsFrom, Spends, Tracks;
    steps := 0;
    ghost var answer := RegexReads(pattern, value);
    var i: nat, j: nat, star: nat, restart: nat := 0, 0, |pattern|, 0;
    TracksStart(pattern, value);
    while j < |value|
      invariant i <= |pattern| && restart <= j <= |value| && star <= |pattern|
      invariant Tracks(answer, pattern, value, i, j, star, restart)
      invariant WithinBudget(steps, restart, i, |pattern|)
      decreases |value| - restart, |pattern| - i
    {
      ghost var i0, restart0 := i, restart;
      if i < |pattern| && (pattern[i] == value[j] || pattern[i] == QUESTION) {
        TracksByte(answer, pattern, value, i, j, star, restart);
        i := i + 1;
        j := j + 1;
      } else if i < |pattern| && pattern[i] == STAR {
        TracksStar(answer, pattern, value, i, j, star, restart);
        star := i;
        restart := j;
        i := i + 1;
      } else if star < |pattern| {
        TracksRetry(answer, pattern, value, i, j, star, restart);
        restart := restart + 1;
        j := restart;
        i := star + 1;
      } else {
        TracksRetry(answer, pattern, value, i, j, star, restart);
        BudgetTotal(steps, restart, i, |pattern|, |value|);
        return false, steps;
      }
      BudgetGrows(steps, restart0, i0, |pattern|, restart, i);
      steps := steps + 1;
    }
    TracksToEnd(answer, pattern, value, i, star, restart);
    while i < |pattern| && pattern[i] == STAR
      invariant i <= |pattern|
      invariant answer == ReadsFrom(pattern[i..], [], false)
      invariant WithinBudget(steps, restart, i, |pattern|)
    {
      TrailingStar(pattern, i);
      i := i + 1;
      steps := steps + 1;
    }
    TrailingStar(pattern, i);
    BudgetTotal(steps, restart, i, |pattern|, |value|);
    return i == |pattern|, steps;
  }

  // -------------------------------------------- the reading and the meaning

  /** Whatever is accepted is a true match. */
  lemma {:induction false} AcceptedIsMatch(pattern: Text, value: Text)
    requires RegexReads(pattern, value)
    ensures Matches(ElementsOf(pattern), value, false)
  {
    if pattern != [] {
      var es := ElementsOf(pattern);
      assert es[1..] == ElementsOf(pattern[1..]);
      if value != [] && Same(pattern[0], value[0]) {
        AcceptedIsMatch(pattern[1..], value[1..]);
        if es[0].Star? { assert Matches(es, value[1..], false); }
      } else {
        var k := AnywhereAt(pattern[1..], value);
        AcceptedIsMatch(pattern[1..], value[k..]);
        StarSkips(es, value, k);
      }
    }
  }

  lemma {:induction false} StarSkips(es: seq<Element>, value: Text, k: nat)
    requires es != [] && es[0].Star? && k <= |value| && Matches(es[1..], value[k..], false)
    ensures Matches(es, value, false)
    decreases k
  {
    if k == 0 { assert value[0..] == value; }
    else {
      assert value[1..][k - 1..] == value[k..];
      StarSkips(es, value[1..], k - 1);
    }
  }

  lemma {:induction false} StarSkipped(es: seq<Element>, value: Text) returns (k: nat)
    requires es != [] && es[0].Star? && Matches(es, value, false)
    ensures k <= |value| && Matches(es[1..], value[k..], false)
    decreases |value|
  {
    if Matches(es[1..], value, false) {
      k := 0;
      assert value[0..] == value;
    } else {
      var j := StarSkipped(es, value[1..]);
      k := j + 1;
      assert value[k..] == value[1..][j..];
    }
  }

  /** Without a `*` byte on one of the two sides, every true match is accepted. */
  lemma {:induction false} MatchIsAccepted(pattern: Text, value: Text)
    requires STAR !in value || STAR !in pattern
    requires Matches(ElementsOf(pattern), value, false)
    ensures RegexReads(pattern, value)
    decreases |pattern|
  {
    if pattern != [] {
      var es := ElementsOf(pattern);
      assert es[1..] == ElementsOf(pattern[1..]);
      if pattern[0] == STAR {
        var k := StarSkipped(es, value);
        MatchIsAccepted(pattern[1..], value[k..]);
        AnywhereFrom(pattern[1..], value, k);
      } else {
        MatchIsAccepted(pattern[1..], value[1..]);
      }
    }
  }

  /** The pattern that loses a match on a given value: `?` throughout, with a
      star against the `*` byte at `at` that ought to be empty. */
  function LosingPattern(value: Text, at: nat): (p: Text)
    requires at < |value|
    ensures |p| == |value| + 1
    ensures forall k :: 0 <= k < |p| ==> p[k] == if k == at then STAR else QUESTION
  {
    seq(|value| + 1, k => if k == at then STAR else QUESTION)
  }

  function Questions(n: nat): (s: Text)
    ensures |s| == n && forall k :: 0 <= k < n ==> s[k] == QUESTION
  {
    seq(n, i => QUESTION)
  }

  lemma {:induction false} QuestionsMatch(value: Text)
    ensures Matches(ElementsOf(Questions(|value|)), value, false)
  {
    if value != [] {
      assert ElementsOf(Questions(|value|))[1..] == ElementsOf(Questions(|value| - 1));
      QuestionsMatch(value[1..]);
    }
  }

  /** A pattern whose every byte is spent one against one is too short for a longer value. */
  lemma {:induction false} SpentTooSoon(pattern: Text, value: Text, n: nat)
    requires n <= |pattern| && n <= |value|
    requires forall k :: 0 <= k < n ==> Same(pattern[k], value[k])
    requires STAR !in pattern[n..] && |pattern| != |value|
    ensures !RegexReads(pattern, value)
    decreases |pattern|
  {
    if pattern != [] && value != [] {
      if n > 0 {
        assert pattern[1..][n - 1..] == pattern[n..];
        SpentTooSoon(pattern[1..], value[1..], n - 1);
      } else {
        assert pattern[0..] == pattern && pattern[0] != STAR;
        assert STAR !in pattern[1..][0..];
        if Same(pattern[0], value[0]) { SpentTooSoon(pattern[1..], value[1..], 0); }
      }
    } else if pattern != [] {
      assert pattern[n..] == pattern && pattern[0] in pattern;
    }
  }

  lemma {:induction false} LosesOn(value: Text, at: nat)
    requires at < |value| && value[at] == STAR
    ensures Matches(ElementsOf(LosingPattern(value, at)), value, false)
    ensures !RegexReads(LosingPattern(value, at), value)
  {
    SpentTooSoon(LosingPattern(value, at), value, at + 1);
    var es := ElementsOf(LosingPattern(value, at));
    if at == 0 {
      assert es[1..] == ElementsOf(Questions(|value|));
      QuestionsMatch(value);
    } else {
      assert es[1..] == ElementsOf(LosingPattern(value[1..], at - 1));
      LosesOn(value[1..], at - 1);
    }
  }

  ghost predicate ExactOnValue(value: Text) {
    forall pattern :: RegexReads(pattern, value) == Matches(ElementsOf(pattern), value, false)
  }

  /** A value is matched as documented by every pattern exactly when it has no `*` byte. */
  lemma ExactForAllPatternsIff(value: Text)
    ensures ExactOnValue(value) <==> STAR !in value
  {
    if STAR in value {
      var at :| 0 <= at < |value| && value[at] == STAR;
      LosesOn(value, at);
    } else {
      forall pattern ensures RegexReads(pattern, value) == Matches(ElementsOf(pattern), value, false) {
        if RegexReads(pattern, value) { AcceptedIsMatch(pattern, value); }
        if Matches(ElementsOf(pattern), value, false) { MatchIsAccepted(pattern, value); }
      }
    }
  }

  /** A value on which a starred pattern loses a match: the pattern's own bytes,
      with one byte added for its last star to take. */
  function LosingValue(pattern: Text, last: nat): Text
    requires last < |pattern|
  {
    pattern[..last + 1] + [0] + pattern[last + 1..]
  }

  lemma {:induction false} PatternMatchesItself(pattern: Text)
    ensures Matches(ElementsOf(pattern), pattern, false)
  {
    if pattern != [] {
      var es := ElementsOf(pattern);
      assert es[1..] == ElementsOf(pattern[1..]);
      PatternMatchesItself(pattern[1..]);
      if es[0].Star? { assert Matches(es, pattern[1..], false); }
    }
  }

  lemma LosesFor(pattern: Text, last: nat)
    requires last < |pattern| && pattern[last] == STAR && STAR !in pattern[last + 1..]
    ensures Matches(ElementsOf(pattern), LosingValue(pattern, last), false)
    ensures !RegexReads(pattern, LosingValue(pattern, last))
  {
    hide Matches, RegexReads, ElementsOf, LosingValue;
    var head, tail := pattern[..last], pattern[last + 1..];
    PatternMatchesItself(head);
    StarTakesTwo(tail);
    MatchJoin(ElementsOf(head), [Star] + ElementsOf(tail), head, [STAR, 0] + tail, false);
    LosingParts(pattern, last);
    SpentTooSoon(pattern, LosingValue(pattern, last), last + 1);
  }

  lemma StarTakesTwo(tail: Text)
    ensures Matches([Star] + ElementsOf(tail), [STAR, 0] + tail, false)
  {
    hide Matches, ElementsOf;
    PatternMatchesItself(tail);
    var taken: Text := [STAR, 0];
    assert ([Star] + ElementsOf(tail))[1..] == ElementsOf(tail) && (taken + tail)[2..] == tail;
    StarSkips([Star] + ElementsOf(tail), taken + tail, 2);
  }

  lemma LosingParts(pattern: Text, last: nat)
    requires last < |pattern| && pattern[last] == STAR
    ensures ElementsOf(pattern) == ElementsOf(pattern[..last]) + ([Star] + ElementsOf(pattern[last + 1..]))
    ensures LosingValue(pattern, last) == pattern[..last] + ([STAR, 0] + pattern[last + 1..])
  {
  }

  lemma {:induction false} LastStar(pattern: Text) returns (last: nat)
    requires STAR in pattern
    ensures last < |pattern| && pattern[last] == STAR && STAR !in pattern[last + 1..]
  {
    var n := |pattern| - 1;
    if pattern[n] == STAR {
      last := n;
    } else {
      assert pattern == pattern[..n] + [pattern[n]];
      last := LastStar(pattern[..n]);
      assert pattern[last + 1..] == pattern[..n][last + 1..] + [pattern[n]];
    }
  }

  ghost predicate ExactOnPattern(pattern: Text) {
    forall value :: RegexReads(pattern, value) == Matches(ElementsOf(pattern), value, false)
  }

  /** A pattern matches every value as documented exactly when it has no star. */
  lemma ExactForAllValuesIff(pattern: Text)
    ensures ExactOnPattern(pattern) <==> STAR !in pattern
  {
    if STAR in pattern {
      var last := LastStar(pattern);
      LosesFor(pattern, last);
    } else {
      forall value ensures RegexReads(pattern, value) == Matches(ElementsOf(pattern), value, false) {
        if RegexReads(pattern, value) { AcceptedIsMatch(pattern, value); }
        if Matches(ElementsOf(pattern), value, false) { MatchIsAccepted(pattern, value); }
      }
    }
  }

  /** The concrete failure: the pattern `*` rejects `*a`. */
  lemma StarRejectsStarA()
    ensures Matches(ElementsOf([42]), [42, 97], false) && !RegexReads([42], [42, 97])
  {
    var pattern: Text := [42];
    assert LosingValue(pattern, 0) == [42, 97][1 := 0];
    StarSkips(ElementsOf(pattern), [42, 97], 2);
    SpentTooSoon(pattern, [42, 97], 1);
  }

  lemma {:induction false} SameElements(pattern: Text)
    requires BACKSLASH !in pattern
    ensures Elements(pattern) == ElementsOf(pattern)
  {
    if pattern != [] {
      SameElements(pattern[1..]);
      assert ElementsOf(pattern) == [ElementOf(pattern[0])] + ElementsOf(pattern[1..]);
    }
  }

  /** On star-free values and backslash-free patterns the two packages agree. */
  lemma AgreesWithGlob(pattern: Text, value: Text)
    requires BACKSLASH !in pattern && STAR !in value
    ensures RegexReads(pattern, value) == Accepts(pattern, value, false)
  {
    SameElements(pattern);
    ExactForAllPatternsIff(value);
    GlobMeaning.PlainPatternIsTransparent(pattern, GlobMeaning.Closed);
    GlobMeaning.ExactForAllInputsIff(pattern, false);
  }

  // ------------------------------------------------------------ literal search

  ghost predicate OccursAt(value: Text, needle: Text, k: int) {
    0 <= k <= |value| - |needle| && value[k..k + |needle|] == needle
  }

  predicate WildcardFree(needle: Text) {
    STAR !in needle && QUESTION !in needle
  }

  /** The pattern that looks for a needle anywhere. */
  function Around(needle: Text): Text {
    [STAR] + (needle + [STAR])
  }

  /** What the last star takes: anything that does not begin with a `*`, or that byte alone. */
  predicate StarEnds(rest: Text) {
    rest == [] || rest[0] != STAR || |rest| == 1
  }

  lemma LastStarReads(rest: Text)
    ensures ReadsFrom([STAR], rest, false) <==> StarEnds(rest)
  {
    assert [STAR][1..] == [];
    AnywhereFrom([], rest, |rest|);
  }

  lemma {:induction false} NeedleReads(needle: Text, value: Text)
    requires WildcardFree(needle)
    ensures ReadsFrom(needle + [STAR], value, false) <==> needle <= value && StarEnds(value[|needle|..])
  {
    if needle == [] {
      assert needle + [STAR] == [STAR] && value[0..] == value;
      LastStarReads(value);
    } else {
      assert needle[0] in needle && (needle + [STAR])[1..] == needle[1..] + [STAR];
      if value != [] && value[0] == needle[0] {
        NeedleReads(needle[1..], value[1..]);
        assert needle <= value <==> needle[1..] <= value[1..] by {
          assert needle == [needle[0]] + needle[1..] && value == [value[0]] + value[1..];
        }
        if needle <= value { assert value[1..][|needle| - 1..] == value[|needle|..]; }
      }
    }
  }

  /** An occurrence that the matcher can use: a `*` byte at the front of the value takes the
      first star, and one right after the occurrence takes the last. */
  ghost predicate UsableAt(value: Text, needle: Text, k: int) {
    && OccursAt(value, needle, k)
    && (value != [] && value[0] == STAR ==> k == 1)
    && StarEnds(value[k + |needle|..])
  }

  lemma UsableReads(value: Text, needle: Text, k: nat)
    requires WildcardFree(needle) && k <= |value|
    ensures ReadsFrom(needle + [STAR], value[k..], false) <==>
      OccursAt(value, needle, k) && StarEnds(value[k + |needle|..])
  {
    NeedleReads(needle, value[k..]);
    if k + |needle| <= |value| {
      assert value[k..][|needle|..] == value[k + |needle|..] && value[k..][..|needle|] == value[k..k + |needle|];
    }
  }

  /** For every needle without wildcards and every value, `*needle*` is accepted exactly
      when the needle has an occurrence that can be used; so on a value without a `*`
      byte exactly when it occurs. */
  lemma SearchIsMatchingIff(value: Text, needle: Text)
    requires WildcardFree(needle)
    ensures RegexReads(Around(needle), value) <==> exists k :: UsableAt(value, needle, k)
    ensures STAR !in value ==>
      (RegexReads(Around(needle), value) <==> exists k :: OccursAt(value, needle, k))
  {
    var rest := needle + [STAR];
    assert Around(needle)[1..] == rest;
    if value != [] && value[0] == STAR {
      UsableReads(value, needle, 1);
      assert UsableAt(value, needle, 1) <==> exists k :: UsableAt(value, needle, k);
    } else {
      if ReadsFrom(rest, value, true) {
        var k := AnywhereAt(rest, value);
        UsableReads(value, needle, k);
        assert UsableAt(value, needle, k);
      }
      if k :| UsableAt(value, needle, k) {
        UsableReads(value, needle, k);
        AnywhereFrom(rest, value, k);
      }
    }
    if STAR !in value {
      forall k | OccursAt(value, needle, k) ensures UsableAt(value, needle, k) {
        assert forall i :: 0 <= i < |value| ==> value[i] in value;
      }
    }
  }

  /** An occurrence may be lost: `a` occurs in `a**`, which `*a*` rejects. */
  lemma FollowedByStarsIsLost()
    ensures OccursAt([97, 42, 42], [97], 0) && !RegexReads(Around([97]), [97, 42, 42])
  {
    var value, needle: Text := [97, 42, 42], [97];
    SearchIsMatchingIff(value, needle);
    assert value[0..1] == needle && value[1..] == [42, 42];
    forall k ensures !UsableAt(value, needle, k) {
      if OccursAt(value, needle, k) { assert value[k..k + 1][0] == needle[0]; }
    }
  }

  /** The first occurrence, or -1 when there is none. */
  method RegexFindLiteral(value: Text, needle: Text) returns (r: int)
    ensures r >= 0 ==> OccursAt(value, needle, r)
    ensures r == -1 <==> forall k :: !OccursAt(value, needle, k)
    ensures forall k :: OccursAt(value, needle, k) ==> 0 <= r <= k
    ensures WildcardFree(needle) && STAR !in value ==> (r >= 0 <==> RegexReads(Around(needle), value))
    ensures WildcardFree(needle) && RegexReads(Around(needle), value) ==> r >= 0
  {
    hide RegexReads;
    if WildcardFree(needle) { SearchIsMatchingIff(value, needle); }
    if |needle| == 0 { return 0; }
    if |needle| > |value| { return -1; }
    var i := 0;
    while i <= |value| - |needle|
      invariant 0 <= i <= |value| - |needle| + 1
      invariant forall k :: OccursAt(value, needle, k) ==> i <= k
    {
      var j := 0;
      while j < |needle| && value[i + j] == needle[j]
        invariant j <= |needle| && value[i..i + j] == needle[..j]
      {
        assert value[i..i + j + 1] == value[i..i + j] + [value[i + j]];
        j := j + 1;
      }
      if j == |needle| {
        assert needle[..j] == needle;
        return i;
      }
      assert value[i..i + |needle|][j] == value[i + j];
      assert !OccursAt(value, needle, i);
      i := i + 1;
    }
    return -1;
  }

  /** Searching is matching `*needle*`, for a needle without wildcards. */
  lemma FindIsMatch(value: Text, needle: Text)
    requires WildcardFree(needle)
    ensures (exists k :: OccursAt(value, needle, k)) <==> Matches(ElementsOf(Around(needle)), value, false)
  {
    var es := ElementsOf(Around(needle));
    var tail := Lits(needle) + [Star];
    assert forall c :: c in needle ==> c != STAR && c != QUESTION;
    assert ElementsOf(needle) == Lits(needle);
    assert es == [Star] + tail && es[1..] == tail;
    LitsMatchThemselves(needle, needle, false);
    if exists k :: OccursAt(value, needle, k) {
      var k :| OccursAt(value, needle, k);
      var after := value[k + |needle|..];
      StarTakes(after, false);
      MatchJoin(Lits(needle), [Star], needle, after, false);
      assert value[k..] == needle + after;
      StarSkips(es, value, k);
    }
    if Matches(es, value, false) {
      var k := StarSkipped(es, value);
      var n := MatchSplit(Lits(needle), [Star], value[k..], false);
      LitsMatchThemselves(needle, value[k..][..n], false);
      assert value[k..][..n] == value[k..k + n];
      assert OccursAt(value, needle, k);
    }
  }
}
