/** noqeri.glob: the matcher's loops. */
module Glob {
  import opened Bytes
  import opened Wildcard

  /* `Elements` is what a pattern is documented to mean.  `Reads` is how the
     matcher's loop takes the pattern's bytes, with free choice of how much each
     star absorbs.  The loop, which keeps only the last star, decides `Reads`
     exactly; GlobMeaning says how `Reads` relates to the documented meaning.
     The two part company only where a backslash in the input meets an escape:
     the loop also lets the escaping backslash match a backslash byte. */

  predicate Magic(c: Byte) {
    c == STAR || c == QUESTION
  }

  function ElementOf(c: Byte): Element {
    if c == STAR then Star else if c == QUESTION then Any else Lit(c)
  }

  /** The documented meaning of a pattern; a lone final backslash stands for itself. */
  function Elements(pattern: Text): seq<Element> {
    if pattern == [] then []
    else if pattern[0] == BACKSLASH && |pattern| > 1 then [Lit(pattern[1])] + Elements(pattern[2..])
    else [ElementOf(pattern[0])] + Elements(pattern[1..])
  }

  /** The bytes with a meaning of their own: `*`, `?`, the escaping backslash, and the
      `/` that neither wildcard takes in slash-safe mode. */
  lemma BytesOfAPattern(c: Byte, slashSafe: bool)
    ensures Elements([c]) == [if c == 42 then Star else if c == 63 then Any else Lit(c)]
    ensures Elements([92, c]) == [Lit(c)]
    ensures Passes(c, slashSafe) <==> !(slashSafe && c == 47)
  {
    assert [c][1..] == [] && [92, c][2..] == [];
  }

  /** No lone final backslash. */
  predicate Valid(pattern: Text) {
    pattern == [] ||
    if pattern[0] == BACKSLASH then |pattern| > 1 && Valid(pattern[2..]) else Valid(pattern[1..])
  }

  /** How many pattern bytes the loop spends on one input byte when the pattern
      does not start with a star; 0 when the byte is refused. */
  function Advance(pattern: Text, c: Byte, slashSafe: bool): (n: nat)
    requires pattern != []
    ensures n <= |pattern| && n <= 2
  {
    if pattern[0] == BACKSLASH && |pattern| > 1 && pattern[1] == c then 2
    else if pattern[0] == QUESTION && Passes(c, slashSafe) then 1
    else if pattern[0] == c && pattern[0] != STAR then 1
    else 0
  }

  predicate Reads(pattern: Text, input: Text, slashSafe: bool)
    decreases |pattern|, |input|
  {
    if pattern == [] then input == []
    else if pattern[0] == STAR then
      || Reads(pattern[1..], input, slashSafe)
      || (input != [] && Passes(input[0], slashSafe) && Reads(pattern, input[1..], slashSafe))
    else
      && input != []
      && Advance(pattern, input[0], slashSafe) != 0
      && Reads(pattern[Advance(pattern, input[0], slashSafe)..], input[1..], slashSafe)
  }

  predicate Accepts(pattern: Text, input: Text, slashSafe: bool) {
    Valid(pattern) && Reads(pattern, input, slashSafe)
  }

  // ---------------------------------------------------------------- the loops

  method GlobPatternValid(pattern: Text) returns (r: bool)
    ensures r == Valid(pattern)
  {
    var i := 0;
    while i < |pattern|
      invariant i <= |pattern|
      invariant Valid(pattern[i..]) == Valid(pattern)
    {
      if pattern[i] == BACKSLASH {
        if i + 1 >= |pattern| { return false; }
        assert pattern[i..][2..] == pattern[i + 2..];
        i := i + 2;
      } else {
        assert pattern[i..][1..] == pattern[i + 1..];
        i := i + 1;
      }
    }
    return true;
  }

  /** The elements that remain from a position, which may have stepped past the end. */
  function ElementsFrom(pattern: Text, i: nat): seq<Element> {
    if i >= |pattern| then [] else Elements(pattern[i..])
  }

  lemma ElementsNext(pattern: Text, i: nat)
    requires i < |pattern|
    ensures ElementsFrom(pattern, i) ==
      if pattern[i] == BACKSLASH && i + 1 < |pattern| then [Lit(pattern[i + 1])] + ElementsFrom(pattern, i + 2)
      else [ElementOf(pattern[i])] + ElementsFrom(pattern, i + 1)
  {
    var rest := pattern[i..];
    assert rest[1..] == pattern[i + 1..] && Elements([]) == [];
    if i + 1 < |pattern| { assert rest[2..] == pattern[i + 2..]; }
  }

  lemma ElementsStart(pattern: Text)
    ensures ElementsFrom(pattern, 0) == Elements(pattern)
  {
    assert pattern[0..] == pattern;
  }

  predicate SomeWildcard(elements: seq<Element>) {
    exists k :: 0 <= k < |elements| && !elements[k].Lit?
  }

  lemma SomeWildcardNext(first: Element, rest: seq<Element>)
    ensures SomeWildcard([first] + rest) <==> !first.Lit? || SomeWildcard(rest)
  {
    var all := [first] + rest;
    assert all[0] == first;
    if SomeWildcard(rest) {
      var k :| 0 <= k < |rest| && !rest[k].Lit?;
      assert all[k + 1] == rest[k];
    }
  }

  method GlobHasWildcard(pattern: Text) returns (r: bool)
    ensures r <==> SomeWildcard(Elements(pattern))
  {
    hide ElementsFrom, SomeWildcard;
    ElementsStart(pattern);
    var i := 0;
    while i < |pattern|
      invariant SomeWildcard(ElementsFrom(pattern, i)) == SomeWildcard(Elements(pattern))
    {
      ElementsNext(pattern, i);
      ghost var first := ElementsFrom(pattern, i)[0];
      SomeWildcardNext(first, ElementsFrom(pattern, i)[1..]);
      if pattern[i] == BACKSLASH {
        ElementsEnd(pattern, i + 1);
        i := i + 2;
      } else {
        if Magic(pattern[i]) { return true; }
        i := i + 1;
      }
    }
    ElementsEnd(pattern, i);
    return false;
  }

  lemma ElementsEnd(pattern: Text, i: nat)
    ensures i >= |pattern| ==> ElementsFrom(pattern, i) == ElementsFrom(pattern, i + 1) == []
    ensures !SomeWildcard([])
  {
  }

  /** How many literals come before the first wildcard, or before the end. */
  function LiteralRun(elements: seq<Element>): (n: nat)
    ensures n <= |elements|
  {
    if elements == [] || !elements[0].Lit? then 0 else 1 + LiteralRun(elements[1..])
  }

  lemma {:induction false} LiteralRunIs(elements: seq<Element>)
    ensures var n := LiteralRun(elements);
      && (forall k :: 0 <= k < n ==> elements[k].Lit?)
      && (n < |elements| ==> !elements[n].Lit?)
  {
    if elements != [] && elements[0].Lit? {
      LiteralRunIs(elements[1..]);
      forall k | 0 <= k < LiteralRun(elements) ensures elements[k].Lit? {
        if k > 0 { assert elements[k] == elements[1..][k - 1]; }
      }
    }
  }

  lemma LiteralRunNext(first: Element, rest: seq<Element>)
    ensures LiteralRun([first] + rest) == if first.Lit? then 1 + LiteralRun(rest) else 0
  {
    assert ([first] + rest)[1..] == rest;
  }

  /** The length is that of the longest run of literals the elements start with. */
  method GlobLiteralPrefix(pattern: Text) returns (length: nat)
    ensures length <= |Elements(pattern)|
    ensures forall k :: 0 <= k < length ==> Elements(pattern)[k].Lit?
    ensures length < |Elements(pattern)| ==> !Elements(pattern)[length].Lit?
    ensures length == LiteralRun(Elements(pattern))
  {
    hide ElementsFrom, Elements, LiteralRun;
    ElementsStart(pattern);
    LiteralRunIs(Elements(pattern));
    var i := 0;
    length := 0;
    while i < |pattern|
      invariant i <= |pattern|
      invariant length + LiteralRun(ElementsFrom(pattern, i)) == LiteralRun(Elements(pattern))
    {
      ElementsNext(pattern, i);
      ghost var first := ElementsFrom(pattern, i)[0];
      LiteralRunNext(first, ElementsFrom(pattern, i)[1..]);
      if pattern[i] == STAR || pattern[i] == QUESTION { return length; }
      if pattern[i] == BACKSLASH && i + 1 < |pattern| {
        i := i + 1;
      }
      length := length + 1;
      i := i + 1;
    }
    ElementsEnd(pattern, i);
  }

  /** `rest` is what is left of `pattern` after `n` bytes of `input` without meeting a star. */
  ghost predicate Walks(pattern: Text, input: Text, rest: Text, n: nat, slashSafe: bool)
    decreases n
  {
    && n <= |input|
    && if n == 0 then pattern == rest
       else
         && pattern != [] && pattern[0] != STAR
         && Advance(pattern, input[0], slashSafe) != 0
         && Walks(pattern[Advance(pattern, input[0], slashSafe)..], input[1..], rest, n - 1, slashSafe)
  }

  lemma {:induction false} WalkExtends(pattern: Text, input: Text, rest: Text, n: nat, slashSafe: bool)
    requires Walks(pattern, input, rest, n, slashSafe) && n < |input|
    requires rest != [] && rest[0] != STAR && Advance(rest, input[n], slashSafe) != 0
    ensures Walks(pattern, input, rest[Advance(rest, input[n], slashSafe)..], n + 1, slashSafe)
    decreases n
  {
    if n != 0 {
      assert input[1..][n - 1] == input[n];
      WalkExtends(pattern[Advance(pattern, input[0], slashSafe)..], input[1..], rest, n - 1, slashSafe);
    } else {
      var left := rest[Advance(rest, input[0], slashSafe)..];
      assert Walks(left, input[1..], left, 0, slashSafe);
    }
  }

  lemma {:induction false} WalkKeepsReads(pattern: Text, input: Text, rest: Text, n: nat, slashSafe: bool)
    requires Walks(pattern, input, rest, n, slashSafe)
    ensures Reads(pattern, input, slashSafe) == Reads(rest, input[n..], slashSafe)
    decreases n
  {
    if n == 0 {
      assert input[0..] == input;
    } else {
      assert input[1..][n - 1..] == input[n..];
      WalkKeepsReads(pattern[Advance(pattern, input[0], slashSafe)..], input[1..], rest, n - 1, slashSafe);
    }
  }

  lemma {:induction false} StarAbsorbs(pattern: Text, input: Text, k: nat, slashSafe: bool)
    requires pattern != [] && pattern[0] == STAR && k <= |input|
    requires AllPass(input[..k], slashSafe) && Reads(pattern, input[k..], slashSafe)
    ensures Reads(pattern, input, slashSafe)
    decreases k
  {
    if k == 0 {
      assert input[0..] == input;
    } else {
      assert input[1..][k - 1..] == input[k..];
      assert input[1..][..k - 1] == input[..k][1..];
      assert Passes(input[..k][0], slashSafe);
      StarAbsorbs(pattern, input[1..], k - 1, slashSafe);
    }
  }

  lemma {:induction false} StarSplits(pattern: Text, input: Text, slashSafe: bool) returns (k: nat)
    requires pattern != [] && pattern[0] == STAR && Reads(pattern, input, slashSafe)
    ensures k <= |input| && AllPass(input[..k], slashSafe) && Reads(pattern[1..], input[k..], slashSafe)
    decreases |input|
  {
    if Reads(pattern[1..], input, slashSafe) {
      k := 0;
      assert input[0..] == input;
    } else {
      var j := StarSplits(pattern, input[1..], slashSafe);
      k := j + 1;
      assert input[k..] == input[1..][j..];
      assert input[..k] == [input[0]] + input[1..][..j];
    }
  }

  /** Where a walk stops for good: at a star, or at the end of the input. */
  predicate Halts(rest: Text, input: Text, n: nat) {
    n == |input| || (rest != [] && rest[0] == STAR)
  }

  /** Why keeping only the last star loses nothing.  One reading of `pattern`
      has walked to a later star, or to the end of the input, after `n` bytes;
      if `pattern` can also be read from a later start `k`, then what is left of
      the pattern can read all that is left of the input: the later star absorbs
      what lies between. */
  lemma {:induction false} LastStarSuffices(pattern: Text, input: Text, rest: Text, n: nat, k: nat, slashSafe: bool)
    requires Walks(pattern, input, rest, n, slashSafe) && Halts(rest, input, n)
    requires k <= |input| && AllPass(input[..k], slashSafe)
    requires Reads(pattern, input[k..], slashSafe)
    ensures Reads(rest, input[n..], slashSafe)
    decreases n
  {
    if n == 0 {
      assert input[0..] == input;
      if input != [] { StarAbsorbs(pattern, input, k, slashSafe); }
    } else {
      var tail := input[1..];
      assert tail[n - 1..] == input[n..];
      var a := Advance(pattern, input[0], slashSafe);
      var b := Advance(pattern, input[k..][0], slashSafe);
      assert input[k..][1..] == tail[k..];
      if k > 0 {
        assert Passes(input[..k][0], slashSafe);
      }
      if a == 1 && b == 2 {
        RawThenEscape(pattern, input, rest, n, k, slashSafe);
      } else {
        ShiftedGap(input, k, slashSafe);
        if a == b {
          LastStarSuffices(pattern[a..], tail, rest, n - 1, k, slashSafe);
        } else {
          EscapeThenRaw(pattern, input, rest, n, k, slashSafe);
        }
      }
    }
  }

  lemma ShiftedGap(input: Text, k: nat, slashSafe: bool)
    requires k < |input| && AllPass(input[..k], slashSafe)
    requires k > 0 ==> Passes(input[k], slashSafe)
    ensures AllPass(input[1..][..k], slashSafe)
  {
    forall i | 0 <= i < k ensures Passes(input[1..][..k][i], slashSafe) {
      if i < k - 1 { assert input[i + 1] == input[..k][i + 1]; }
    }
  }

  /** The early reading took an escape as a pair, the late one took its backslash as a byte. */
  lemma {:induction false} EscapeThenRaw(pattern: Text, input: Text, rest: Text, n: nat, k: nat, slashSafe: bool)
    requires Walks(pattern, input, rest, n, slashSafe) && n > 0 && Halts(rest, input, n)
    requires 0 < k < |input| && AllPass(input[..k], slashSafe) && AllPass(input[1..][..k], slashSafe)
    requires Reads(pattern, input[k..], slashSafe)
    requires Advance(pattern, input[0], slashSafe) == 2 && Advance(pattern, input[k], slashSafe) == 1
    ensures Reads(rest, input[n..], slashSafe)
    decreases n, 0
  {
    var tail := input[1..];
    var late := tail[k..];
    assert input[k..][1..] == late && tail[n - 1..] == input[n..];
    assert Passes(input[..k][0], slashSafe);
    var m := AfterBackslash(pattern, late, slashSafe);
    SplitLater(tail, k, m);
    LastStarSuffices(pattern[2..], tail, rest, n - 1, k + m, slashSafe);
  }

  /** Past a backslash taken as a byte, the escaped byte is read as it stands. */
  lemma SplitLater(s: Text, k: nat, m: nat)
    requires k <= |s| && m <= |s[k..]|
    ensures s[k..][m..] == s[k + m..] && s[..k + m] == s[..k] + s[k..][..m]
  {
  }

  lemma AfterBackslash(pattern: Text, late: Text, slashSafe: bool) returns (m: nat)
    requires |pattern| > 1 && pattern[1] != BACKSLASH && Passes(pattern[1], slashSafe)
    requires Reads(pattern[1..], late, slashSafe)
    ensures m <= |late| && AllPass(late[..m], slashSafe) && Reads(pattern[2..], late[m..], slashSafe)
  {
    assert pattern[1..][1..] == pattern[2..];
    if pattern[1] == STAR {
      m := StarSplits(pattern[1..], late, slashSafe);
    } else {
      m := 1;
    }
  }

  /** The other way round. */
  lemma {:induction false} RawThenEscape(pattern: Text, input: Text, rest: Text, n: nat, k: nat, slashSafe: bool)
    requires Walks(pattern, input, rest, n, slashSafe) && n > 0 && Halts(rest, input, n)
    requires 0 < k < |input| && AllPass(input[..k], slashSafe)
    requires Reads(pattern, input[k..], slashSafe)
    requires Advance(pattern, input[0], slashSafe) == 1 && Advance(pattern, input[k], slashSafe) == 2
    ensures Reads(rest, input[n..], slashSafe)
    decreases n, 0
  {
    var tail := input[1..];
    assert input[k..][1..] == tail[k..];
    assert Reads(pattern[2..], tail[k..], slashSafe);
    assert tail[n - 1..] == input[n..];
    assert pattern[1..][1..] == pattern[2..];
    if n == 1 {
      assert pattern[1] == STAR && rest == pattern[1..];
      assert Reads(rest, tail[k..], slashSafe);
      ShiftedGap(input, k, slashSafe);
      StarAbsorbs(rest, tail, k, slashSafe);
    } else {
      var tail2 := tail[1..];
      assert Advance(pattern[1..], tail[0], slashSafe) == 1;
      assert tail2[n - 2..] == input[n..];
      assert tail2[k - 1..] == tail[k..];
      if k > 1 {
        assert Passes(input[..k][1], slashSafe);
        ShiftedGap(input, k, slashSafe);
      }
      assert tail2[..k - 1] == tail[..k][1..];
      LastStarSuffices(pattern[2..], tail2, rest, n - 2, k - 1, slashSafe);
    }
  }

  lemma LaterStarDecides(starred: Text, text: Text, rest: Text, n: nat, slashSafe: bool)
    requires starred != [] && starred[0] == STAR && rest != [] && rest[0] == STAR
    requires Walks(starred[1..], text, rest, n, slashSafe)
    ensures Reads(starred, text, slashSafe) == Reads(rest, text[n..], slashSafe)
  {
    WalkKeepsReads(starred[1..], text, rest, n, slashSafe);
    if Reads(starred, text, slashSafe) {
      var k := StarSplits(starred, text, slashSafe);
      LastStarSuffices(starred[1..], text, rest, n, k, slashSafe);
    }
  }

  /** At the end of the input, what the last star decides is what is left after it. */
  lemma NothingLeft(starred: Text, text: Text, rest: Text, n: nat, slashSafe: bool)
    requires starred != [] && starred[0] == STAR && n == |text|
    requires Walks(starred[1..], text, rest, n, slashSafe)
    ensures Reads(starred, text, slashSafe) == Reads(rest, [], slashSafe)
  {
    assert text[n..] == [];
    WalkKeepsReads(starred[1..], text, rest, n, slashSafe);
    if Reads(starred, text, slashSafe) {
      var k := StarSplits(starred, text, slashSafe);
      LastStarSuffices(starred[1..], text, rest, n, k, slashSafe);
    }
  }

  /** What the loop knows: with no star met, the rest of the pattern decides the
      rest of the input; otherwise the last star decides from its restart point,
      and the current position was walked to from there. */
  ghost predicate Tracks(
      answer: bool, pattern: Text, input: Text, p: nat, i: nat, star: nat, restart: nat, slashSafe: bool)
  {
    && p <= |pattern| && restart <= i <= |input| && star <= |pattern|
    && if star == |pattern| then
         answer == Reads(pattern[p..], input[i..], slashSafe)
       else
         && pattern[star] == STAR && star < p
         && answer == Reads(pattern[star..], input[restart..], slashSafe)
         && Walks(pattern[star + 1..], input[restart..], pattern[p..], i - restart, slashSafe)
  }

  predicate Refused(pattern: Text, input: Text, p: nat, i: nat, slashSafe: bool)
    requires p <= |pattern| && i < |input|
  {
    p == |pattern| || (pattern[p] != STAR && Advance(pattern[p..], input[i], slashSafe) == 0)
  }

  lemma TracksByte(answer: bool, pattern: Text, input: Text, p: nat, i: nat, star: nat, restart: nat, slashSafe: bool)
    requires Tracks(answer, pattern, input, p, i, star, restart, slashSafe)
    requires p < |pattern| && i < |input| && pattern[p] != STAR
    requires Advance(pattern[p..], input[i], slashSafe) != 0
    ensures var next := p + Advance(pattern[p..], input[i], slashSafe);
      Tracks(answer, pattern, input, next, i + 1, star, restart, slashSafe)
  {
    var a := Advance(pattern[p..], input[i], slashSafe);
    assert pattern[p..][a..] == pattern[p + a..] && input[i..][1..] == input[i + 1..];
    if star < |pattern| {
      assert input[restart..][i - restart] == input[i];
      WalkExtends(pattern[star + 1..], input[restart..], pattern[p..], i - restart, slashSafe);
    }
  }

  lemma TracksStar(answer: bool, pattern: Text, input: Text, p: nat, i: nat, star: nat, restart: nat, slashSafe: bool)
    requires Tracks(answer, pattern, input, p, i, star, restart, slashSafe) && p < |pattern| && pattern[p] == STAR
    ensures Tracks(answer, pattern, input, p + 1, i, p, i, slashSafe)
  {
    if star < |pattern| {
      assert pattern[star..][1..] == pattern[star + 1..];
      assert input[restart..][i - restart..] == input[i..];
      LaterStarDecides(pattern[star..], input[restart..], pattern[p..], i - restart, slashSafe);
    }
  }

  lemma TracksRetry(answer: bool, pattern: Text, input: Text, p: nat, i: nat, star: nat, restart: nat, slashSafe: bool)
    requires Tracks(answer, pattern, input, p, i, star, restart, slashSafe) && i < |input|
    requires Refused(pattern, input, p, i, slashSafe)
    ensures star < |pattern| && Passes(input[restart], slashSafe) ==>
      Tracks(answer, pattern, input, star + 1, restart + 1, star, restart + 1, slashSafe)
    ensures star == |pattern| || !Passes(input[restart], slashSafe) ==> !answer
  {
    assert !Reads(pattern[p..], input[i..], slashSafe);
    if star < |pattern| {
      assert pattern[star..][1..] == pattern[star + 1..];
      assert input[restart..][i - restart..] == input[i..] && input[restart..][1..] == input[restart + 1..];
      WalkKeepsReads(pattern[star + 1..], input[restart..], pattern[p..], i - restart, slashSafe);
    }
  }

  lemma TracksToEnd(answer: bool, pattern: Text, input: Text, p: nat, star: nat, restart: nat, slashSafe: bool)
    requires Tracks(answer, pattern, input, p, |input|, star, restart, slashSafe)
    ensures answer == Reads(pattern[p..], [], slashSafe)
  {
    assert input[|input|..] == [];
    if star < |pattern| {
      assert pattern[star..][1..] == pattern[star + 1..];
      NothingLeft(pattern[star..], input[restart..], pattern[p..], |input| - restart, slashSafe);
    }
  }

  lemma TracksStart(pattern: Text, input: Text, slashSafe: bool)
    ensures Tracks(Reads(pattern, input, slashSafe), pattern, input, 0, 0, |pattern|, 0, slashSafe)
  {
    assert pattern[0..] == pattern && input[0..] == input;
  }

  lemma TrailingStar(pattern: Text, p: nat, slashSafe: bool)
    requires p <= |pattern|
    ensures p < |pattern| && pattern[p] == STAR ==>
      Reads(pattern[p..], [], slashSafe) == Reads(pattern[p + 1..], [], slashSafe)
    ensures p == |pattern| || pattern[p] != STAR ==>
      Reads(pattern[p..], [], slashSafe) == (p == |pattern|)
  {
    if p < |pattern| { assert pattern[p..][1..] == pattern[p + 1..]; }
  }

  /** Iterations so far: one pattern sweep for each retry, and retries never outrun the restart point. */
  ghost predicate WithinBudget(steps: nat, restart: nat, p: nat, m: nat) {
    steps <= restart * (m + 1) + p
  }

  lemma BudgetGrows(steps: nat, restart: nat, p: nat, m: nat, restart': nat, p': nat)
    requires WithinBudget(steps, restart, p, m) && p <= m
    requires restart <= restart' && (p < p' || restart < restart')
    ensures WithinBudget(steps + 1, restart', p', m)
  {
    if restart < restart' {
      assert (restart + 1) * (m + 1) <= restart' * (m + 1);
    }
  }

  lemma BudgetTotal(steps: nat, restart: nat, p: nat, m: nat, n: nat)
    requires WithinBudget(steps, restart, p, m) && restart <= n && p <= m
    ensures steps <= (n + 1) * m + n
  {
    assert restart * (m + 1) <= n * (m + 1);
  }

  /** The loop decides `Reads`, in a number of iterations linear in each length. */
  method GlobMatchMode(pattern: Text, input: Text, slashSafe: bool) returns (r: bool, ghost steps: nat)
    ensures r == Accepts(pattern, input, slashSafe)
    ensures steps <= (|input| + 1) * |pattern| + |input|
  {
    hide Reads, Walks, Tracks;
    steps := 0;
    var valid := GlobPatternValid(pattern);
    if !valid { return false, 0; }
    ghost var answer := Reads(pattern, input, slashSafe);
    var p: nat, i: nat, star: nat, nextInput: nat := 0, 0, |pattern|, 0;
    TracksStart(pattern, input, slashSafe);
    while i < |input|
      invariant p <= |pattern| && nextInput <= i <= |input| && star <= |pattern|
      invariant Tracks(answer, pattern, input, p, i, star, nextInput, slashSafe)
      invariant WithinBudget(steps, nextInput, p, |pattern|)
      decreases |input| - nextInput, |pattern| - p
    {
      ghost var p0, restart0 := p, nextInput;
      if p < |pattern| && pattern[p] == BACKSLASH && p + 1 < |pattern| && pattern[p + 1] == input[i] {
        TracksByte(answer, pattern, input, p, i, star, nextInput, slashSafe);
        p := p + 2;
        i := i + 1;
      } else if p < |pattern| && pattern[p] == QUESTION && (!slashSafe || input[i] != SLASH) {
        TracksByte(answer, pattern, input, p, i, star, nextInput, slashSafe);
        p := p + 1;
        i := i + 1;
      } else if p < |pattern| && pattern[p] == input[i] && pattern[p] != STAR {
        TracksByte(answer, pattern, input, p, i, star, nextInput, slashSafe);
        p := p + 1;
        i := i + 1;
      } else if p < |pattern| && pattern[p] == STAR {
        TracksStar(answer, pattern, input, p, i, star, nextInput, slashSafe);
        star := p;
        nextInput := i;
        p := p + 1;
      } else if star < |pattern| && nextInput < |input| && (!slashSafe || input[nextInput] != SLASH) {
        TracksRetry(answer, pattern, input, p, i, star, nextInput, slashSafe);
        nextInput := nextInput + 1;
        i := nextInput;
        p := star + 1;
      } else {
        TracksRetry(answer, pattern, input, p, i, star, nextInput, slashSafe);
        BudgetTotal(steps, nextInput, p, |pattern|, |input|);
        return false, steps;
      }
      BudgetGrows(steps, restart0, p0, |pattern|, nextInput, p);
      steps := steps + 1;
    }
    TracksToEnd(answer, pattern, input, p, star, nextInput, slashSafe);
    while p < |pattern| && pattern[p] == STAR
      invariant p <= |pattern|
      invariant answer == Reads(pattern[p..], [], slashSafe)
      invariant WithinBudget(steps, nextInput, p, |pattern|)
    {
      TrailingStar(pattern, p, slashSafe);
      p := p + 1;
      steps := steps + 1;
    }
    TrailingStar(pattern, p, slashSafe);
    BudgetTotal(steps, nextInput, p, |pattern|, |input|);
    return p == |pattern|, steps;
  }
}
