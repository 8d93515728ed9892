/** How the glob matcher's reading of a pattern relates to its documented meaning. */
module GlobMeaning {
  import opened Bytes
  import opened Wildcard
  import opened Glob

  // ------------------------------------------------ what is always accepted

  lemma {:induction false} ElementsJoin(a: Text, b: Text)
    requires Valid(a)
    ensures Elements(a + b) == Elements(a) + Elements(b)
    ensures Valid(a + b) == Valid(b)
  {
    if a == [] {
      assert a + b == b;
    } else {
      var n := if a[0] == BACKSLASH then 2 else 1;
      assert (a + b)[n..] == a[n..] + b;
      ElementsJoin(a[n..], b);
    }
  }

  /** A matched prefix can be read, whatever the rest does. */
  lemma {:induction false} MatchThenRead(a: Text, b: Text, s: Text, t: Text, slashSafe: bool)
    requires Valid(a) && Matches(Elements(a), s, slashSafe) && Reads(b, t, slashSafe)
    ensures Reads(a + b, s + t, slashSafe)
    decreases |a|, |s|
  {
    if a == [] {
      assert a + b == b && s + t == t;
    } else {
      var n := if a[0] == BACKSLASH then 2 else 1;
      assert (a + b)[n..] == a[n..] + b && (a + b)[0] == a[0];
      assert Elements(a)[1..] == Elements(a[n..]);
      if s != [] { assert (s + t)[1..] == s[1..] + t; }
      if a[0] == STAR {
        if Matches(Elements(a)[1..], s, slashSafe) { MatchThenRead(a[1..], b, s, t, slashSafe); }
        else { MatchThenRead(a, b, s[1..], t, slashSafe); }
      } else {
        assert Advance(a + b, s[0], slashSafe) == n;
        MatchThenRead(a[n..], b, s[1..], t, slashSafe);
      }
    }
  }

  /** Every input that the pattern's meaning admits is accepted: no match is lost. */
  lemma MeaningIsAccepted(pattern: Text, input: Text, slashSafe: bool)
    requires Valid(pattern) && Matches(Elements(pattern), input, slashSafe)
    ensures Accepts(pattern, input, slashSafe)
  {
    MatchThenRead(pattern, [], input, [], slashSafe);
    assert pattern + [] == pattern && input + [] == input;
  }

  /** Slash-safe acceptance implies plain acceptance, for all patterns and inputs. */
  lemma {:induction false} SafeReadIsPlain(pattern: Text, input: Text)
    requires Reads(pattern, input, true)
    ensures Reads(pattern, input, false)
    decreases |pattern|, |input|
  {
    if pattern != [] {
      if pattern[0] != STAR {
        SafeReadIsPlain(pattern[Advance(pattern, input[0], true)..], input[1..]);
      } else if Reads(pattern[1..], input, true) {
        SafeReadIsPlain(pattern[1..], input);
      } else {
        SafeReadIsPlain(pattern, input[1..]);
      }
    }
  }

  function Slashes(s: Text): nat {
    if s == [] then 0 else (if s[0] == SLASH then 1 else 0) + Slashes(s[1..])
  }

  /** In slash-safe mode every `/` of the input is paid for by a `/` of the pattern. */
  lemma {:induction false} SlashesAreKept(pattern: Text, input: Text)
    requires Reads(pattern, input, true)
    ensures Slashes(input) == Slashes(pattern)
    decreases |pattern|, |input|
  {
    if pattern != [] {
      if pattern[0] != STAR {
        var n := Advance(pattern, input[0], true);
        SlashesAreKept(pattern[n..], input[1..]);
        if n == 2 { assert pattern[1..][1..] == pattern[2..]; }
      } else if Reads(pattern[1..], input, true) {
        SlashesAreKept(pattern[1..], input);
      } else {
        SlashesAreKept(pattern, input[1..]);
      }
    }
  }

  // -------------------------------- exact for every input: a transparent pattern

  /** What precedes a pattern position.  `Open` elements are a star followed only
      by `?`s (`Wild`), then possibly by escaped backslashes (`Slashed`): whatever
      they match, they also match with one more backslash at the end. */
  datatype Context = Closed | Wild | Slashed

  function After(context: Context, e: Element): Context {
    match e
    case Star => Wild
    case Any => if context.Wild? then Wild else Closed
    case Lit(c) => if c == BACKSLASH && !context.Closed? then Slashed else Closed
  }

  /** A caller's test on the pattern alone: each escape is of a backslash, or is of
      an ordinary byte standing where the elements before it would absorb the
      escaping backslash anyway. */
  predicate Transparent(pattern: Text, context: Context) {
    if pattern == [] then true
    else if pattern[0] != BACKSLASH || |pattern| == 1 then
      Transparent(pattern[1..], After(context, ElementOf(pattern[0])))
    else
      && (pattern[1] == BACKSLASH || (!context.Closed? && !Magic(pattern[1])))
      && Transparent(pattern[2..], After(context, Lit(pattern[1])))
  }

  function ContextOf(es: seq<Element>): Context {
    if es == [] then Closed else After(ContextOf(es[..|es| - 1]), es[|es| - 1])
  }

  lemma ContextAfter(es: seq<Element>, e: Element)
    ensures ContextOf(es + [e]) == After(ContextOf(es), e)
  {
    assert (es + [e])[..|es|] == es;
  }

  lemma {:induction false} WildAbsorbsAny(es: seq<Element>, s: Text, c: Byte, slashSafe: bool)
    requires ContextOf(es).Wild? && Matches(es, s, slashSafe) && Passes(c, slashSafe)
    ensures Matches(es, s + [c], slashSafe)
    decreases |es|
  {
    var init, last := es[..|es| - 1], es[|es| - 1];
    assert es == init + [last];
    var k := MatchSplit(init, [last], s, slashSafe);
    if last.Star? {
      StarTakes(s[k..], slashSafe);
      assert AllPass(s[k..] + [c], slashSafe);
      StarTakes(s[k..] + [c], slashSafe);
      MatchJoin(init, [last], s[..k], s[k..] + [c], slashSafe);
      assert s[..k] + (s[k..] + [c]) == s + [c];
    } else {
      OneByte(last, s[k..], slashSafe);
      WildAbsorbsAny(init, s[..k], s[k], slashSafe);
      assert s[..k] + [s[k]] == s;
      OneByte(last, [c], slashSafe);
      MatchJoin(init, [last], s, [c], slashSafe);
    }
  }

  lemma {:induction false} OpenAbsorbsBackslash(es: seq<Element>, s: Text, slashSafe: bool)
    requires !ContextOf(es).Closed? && Matches(es, s, slashSafe)
    ensures Matches(es, s + [BACKSLASH], slashSafe)
    decreases |es|
  {
    if ContextOf(es).Wild? {
      WildAbsorbsAny(es, s, BACKSLASH, slashSafe);
    } else {
      var init, last := es[..|es| - 1], es[|es| - 1];
      assert es == init + [last];
      var k := MatchSplit(init, [last], s, slashSafe);
      OneByte(last, s[k..], slashSafe);
      OpenAbsorbsBackslash(init, s[..k], slashSafe);
      assert s[..k] + [BACKSLASH] == s;
      OneByte(last, [BACKSLASH], slashSafe);
      MatchJoin(init, [last], s, [BACKSLASH], slashSafe);
    }
  }

  /** Reading a transparent pattern after elements `es` that matched `s` is matching. */
  lemma {:induction false} TransparentReadsAreMatches(
      es: seq<Element>, s: Text, pattern: Text, t: Text, slashSafe: bool)
    requires Valid(pattern) && Transparent(pattern, ContextOf(es))
    requires Matches(es, s, slashSafe) && Reads(pattern, t, slashSafe)
    ensures Matches(es + Elements(pattern), s + t, slashSafe)
    decreases |pattern|, |t|
  {
    if pattern == [] {
      assert es + [] == es && s + t == s;
    } else if pattern[0] == STAR {
      var k := StarSplits(pattern, t, slashSafe);
      StarTakes(t[..k], slashSafe);
      ExtendThenRead(es, s, Star, t[..k], pattern[1..], t[k..], slashSafe);
      assert s + t == s + t[..k] + t[k..];
    } else {
      var n := Advance(pattern, t[0], slashSafe);
      assert t == [t[0]] + t[1..];
      if n == 2 {
        OneByte(Lit(pattern[1]), [t[0]], slashSafe);
        ExtendThenRead(es, s, Lit(pattern[1]), [t[0]], pattern[2..], t[1..], slashSafe);
        assert s + t == s + [t[0]] + t[1..];
      } else if pattern[0] == BACKSLASH {
        OpenAbsorbsBackslash(es, s, slashSafe);
        var c := pattern[1];
        assert pattern[1..][1..] == pattern[2..];
        assert t[1..] != [] && t[1] == c;
        OneByte(Lit(c), [c], slashSafe);
        ExtendThenRead(es, s + [BACKSLASH], Lit(c), [c], pattern[2..], t[2..], slashSafe);
        assert s + t == s + [BACKSLASH] + [c] + t[2..];
      } else {
        OneByte(ElementOf(pattern[0]), [t[0]], slashSafe);
        ExtendThenRead(es, s, ElementOf(pattern[0]), [t[0]], pattern[1..], t[1..], slashSafe);
        assert s + t == s + [t[0]] + t[1..];
      }
    }
  }

  lemma {:induction false} ExtendThenRead(es: seq<Element>, s: Text, e: Element, piece: Text,
                                          pattern: Text, t: Text, slashSafe: bool)
    requires Matches(es, s, slashSafe) && Matches([e], piece, slashSafe)
    requires Valid(pattern) && Transparent(pattern, After(ContextOf(es), e)) && Reads(pattern, t, slashSafe)
    ensures Matches(es + ([e] + Elements(pattern)), s + piece + t, slashSafe)
    decreases |pattern|, |t| + 1
  {
    MatchJoin(es, [e], s, piece, slashSafe);
    ContextAfter(es, e);
    TransparentReadsAreMatches(es + [e], s + piece, pattern, t, slashSafe);
    assert es + [e] + Elements(pattern) == es + ([e] + Elements(pattern));
  }

  /** A shortest input for the elements; a `?` gets a byte its left neighbour does not ask for. */
  function Sample(es: seq<Element>): Text {
    if es == [] then []
    else
      var init, last := es[..|es| - 1], es[|es| - 1];
      match last
      case Star => Sample(init)
      case Any => Sample(init) + [if init != [] && init[|init| - 1] == Lit(97) then 98 else 97]
      case Lit(c) => Sample(init) + [c]
  }

  lemma {:induction false} SampleMatches(es: seq<Element>, slashSafe: bool)
    ensures Matches(es, Sample(es), slashSafe)
    ensures |Sample(es)| == MinLength(es)
    decreases |es|
  {
    if es != [] {
      var init, last := es[..|es| - 1], es[|es| - 1];
      assert es == init + [last];
      SampleMatches(init, slashSafe);
      MinLengthJoin(init, [last]);
      var piece: Text := Sample(es)[|Sample(init)|..];
      assert Sample(es) == Sample(init) + piece;
      if last.Star? { StarTakes(piece, slashSafe); } else { OneByte(last, piece, slashSafe); }
      MatchJoin(init, [last], Sample(init), piece, slashSafe);
    }
  }

  lemma {:induction false} MinLengthJoin(a: seq<Element>, b: seq<Element>)
    ensures MinLength(a + b) == MinLength(a) + MinLength(b)
  {
    if a == [] { assert a + b == b; }
    else {
      assert (a + b)[1..] == a[1..] + b;
      MinLengthJoin(a[1..], b);
    }
  }

  /** Only a wild context lets its sample grow by a byte the last element does not ask for. */
  lemma {:induction false} GrowsByFreshByte(es: seq<Element>, c: Byte, slashSafe: bool)
    requires Matches(es, Sample(es) + [c], slashSafe)
    requires es != [] ==> es[|es| - 1] != Lit(c)
    ensures ContextOf(es).Wild?
    decreases |es|
  {
    if es != [] && !es[|es| - 1].Star? {
      var had := ShrinkLast(es, c, slashSafe);
      GrowsByFreshByte(es[..|es| - 1], had, slashSafe);
    }
  }

  /** The last element takes the added byte, so the others grow by the byte it had. */
  lemma ShrinkLast(es: seq<Element>, c: Byte, slashSafe: bool) returns (had: Byte)
    requires es != [] && !es[|es| - 1].Star? && Matches(es, Sample(es) + [c], slashSafe)
    ensures Takes(es[|es| - 1], [c], slashSafe)
    ensures Matches(es[..|es| - 1], Sample(es[..|es| - 1]) + [had], slashSafe)
    ensures es[|es| - 1].Lit? ==> es[|es| - 1] == Lit(had)
    ensures es[|es| - 1].Any? && |es| > 1 ==> es[|es| - 2] != Lit(had)
  {
    var init, last := es[..|es| - 1], es[|es| - 1];
    assert es == init + [last];
    var s := Sample(es);
    had := s[|s| - 1];
    var k := MatchSplit(init, [last], s + [c], slashSafe);
    OneByte(last, (s + [c])[k..], slashSafe);
    assert k == |s|;
    assert (s + [c])[..k] == s && (s + [c])[k..] == [c];
  }

  /** Only an open context lets its sample grow by a backslash. */
  lemma {:induction false} GrowsByBackslash(es: seq<Element>, slashSafe: bool)
    requires Matches(es, Sample(es) + [BACKSLASH], slashSafe)
    ensures !ContextOf(es).Closed?
    decreases |es|
  {
    if es != [] && !es[|es| - 1].Star? {
      var had := ShrinkLast(es, BACKSLASH, slashSafe);
      if es[|es| - 1].Any? {
        GrowsByFreshByte(es[..|es| - 1], had, slashSafe);
      } else {
        assert had == BACKSLASH;
        GrowsByBackslash(es[..|es| - 1], slashSafe);
      }
    }
  }

  lemma UnitMeans(unit: Text)
    requires (|unit| == 2 && unit[0] == BACKSLASH) || (|unit| == 1 && unit[0] != BACKSLASH)
    ensures Valid(unit)
    ensures Elements(unit) == [if |unit| == 2 then Lit(unit[1]) else ElementOf(unit[0])]
  {
    assert unit[|unit|..] == [];
  }

  /** The first escape that breaks transparency, with the pattern before and after it. */
  lemma {:induction false} FirstOpaqueEscape(before: Text, pattern: Text) returns (head: Text, c: Byte, tail: Text)
    requires Valid(before) && Valid(pattern) && !Transparent(pattern, ContextOf(Elements(before)))
    ensures Valid(head) && Valid(tail) && before + pattern == head + ([BACKSLASH, c] + tail)
    ensures c != BACKSLASH && (Magic(c) || ContextOf(Elements(head)).Closed?)
    decreases |pattern|
  {
    hide Elements, ContextOf;
    var n := if pattern[0] == BACKSLASH then 2 else 1;
    var unit := pattern[..n];
    if n == 2 && pattern[1] != BACKSLASH && (ContextOf(Elements(before)).Closed? || Magic(pattern[1])) {
      head, c, tail := before, pattern[1], pattern[2..];
      assert pattern == [BACKSLASH, c] + tail;
    } else {
      UnitMeans(unit);
      ElementsJoin(before, unit);
      ContextAfter(Elements(before), Elements(unit)[0]);
      head, c, tail := FirstOpaqueEscape(before + unit, pattern[n..]);
      assert before + pattern == before + unit + pattern[n..];
    }
  }

  /** An input on which an opaque escape is misread. */
  function MisreadInput(head: Text, c: Byte, tail: Text): Text {
    Sample(Elements(head)) + [BACKSLASH] + MisreadTail(c) + Sample(Elements(tail))
  }

  lemma EscapeMeans(head: Text, c: Byte, tail: Text)
    requires Valid(head) && Valid(tail)
    ensures Valid(head + ([BACKSLASH, c] + tail))
    ensures Elements(head + ([BACKSLASH, c] + tail)) == Elements(head) + ([Lit(c)] + Elements(tail))
  {
    var rest: Text := [BACKSLASH, c] + tail;
    assert rest[2..] == tail;
    ElementsJoin(head, rest);
  }

  /** An escaping backslash can be read as a backslash byte. */
  lemma RawEscapeReads(c: Byte, tail: Text, t: Text, slashSafe: bool)
    requires c != BACKSLASH && Reads([c] + tail, t, slashSafe)
    ensures Reads([BACKSLASH, c] + tail, [BACKSLASH] + t, slashSafe)
  {
    var pattern: Text, input: Text := [BACKSLASH, c] + tail, [BACKSLASH] + t;
    assert pattern[1..] == [c] + tail && input[1..] == t;
    assert Advance(pattern, input[0], slashSafe) == 1;
  }

  function MisreadTail(c: Byte): Text {
    if c == STAR then [] else if c == QUESTION then [97] else [c]
  }

  lemma MagicReads(c: Byte, tail: Text, w: Text, slashSafe: bool)
    requires c != BACKSLASH && Reads(tail, w, slashSafe)
    ensures Reads([c] + tail, MisreadTail(c) + w, slashSafe)
  {
    var pattern: Text, input: Text := [c] + tail, MisreadTail(c) + w;
    assert pattern[1..] == tail;
    if c == STAR { assert input == w; }
    else { assert input[1..] == w && Advance(pattern, input[0], slashSafe) == 1; }
  }

  lemma MisreadIsRead(head: Text, c: Byte, tail: Text, slashSafe: bool)
    requires Valid(head) && Valid(tail) && c != BACKSLASH
    ensures Reads(head + ([BACKSLASH, c] + tail), MisreadInput(head, c, tail), slashSafe)
  {
    hide Reads, Matches, Elements, Valid, Sample, MisreadTail;
    var u, w := Sample(Elements(head)), Sample(Elements(tail));
    SampleMatches(Elements(head), slashSafe);
    SampleMatches(Elements(tail), slashSafe);
    MeaningIsAccepted(tail, w, slashSafe);
    MagicReads(c, tail, w, slashSafe);
    RawEscapeReads(c, tail, MisreadTail(c) + w, slashSafe);
    MatchThenRead(head, [BACKSLASH, c] + tail, u, [BACKSLASH] + (MisreadTail(c) + w), slashSafe);
    assert MisreadInput(head, c, tail) == u + ([BACKSLASH] + (MisreadTail(c) + w));
  }

  lemma MisreadIsNoMatch(head: Text, c: Byte, tail: Text, slashSafe: bool)
    requires Valid(head) && Valid(tail) && c != BACKSLASH
    requires Magic(c) || ContextOf(Elements(head)).Closed?
    ensures !Matches(Elements(head) + ([Lit(c)] + Elements(tail)), MisreadInput(head, c, tail), slashSafe)
  {
    var a, b := Elements(head), Elements(tail);
    var input := MisreadInput(head, c, tail);
    if Matches(a + ([Lit(c)] + b), input, slashSafe) {
      var k := MatchSplit(a, [Lit(c)] + b, input, slashSafe);
      assert ([Lit(c)] + b)[1..] == b;
      var rest := input[k..];
      assert rest != [] && input[k] == c && Matches(b, rest[1..], slashSafe);
      MatchIsLongEnough(a, input[..k], slashSafe);
      MatchIsLongEnough(b, rest[1..], slashSafe);
      SampleMatches(a, slashSafe);
      SampleMatches(b, slashSafe);
      var n := |Sample(a)|;
      assert input[n] == BACKSLASH;
      assert k == n + 1 && c != STAR;
      assert input[n + 1] == c && c != QUESTION;
      assert input[..k] == Sample(a) + [BACKSLASH];
      GrowsByBackslash(a, slashSafe);
    }
  }

  ghost predicate ExactOnPattern(pattern: Text, slashSafe: bool) {
    forall input :: Accepts(pattern, input, slashSafe) == Matches(Elements(pattern), input, slashSafe)
  }

  /** A well-formed pattern matches every input as documented exactly when it is transparent. */
  lemma ExactForAllInputsIff(pattern: Text, slashSafe: bool)
    requires Valid(pattern)
    ensures ExactOnPattern(pattern, slashSafe) <==> Transparent(pattern, Closed)
  {
    if Transparent(pattern, Closed) {
      forall input
        ensures Accepts(pattern, input, slashSafe) == Matches(Elements(pattern), input, slashSafe)
      {
        if Matches(Elements(pattern), input, slashSafe) { MeaningIsAccepted(pattern, input, slashSafe); }
        if Reads(pattern, input, slashSafe) {
          TransparentReadsAreMatches([], [], pattern, input, slashSafe);
          assert [] + Elements(pattern) == Elements(pattern) && [] + input == input;
        }
      }
    } else {
      var head, c, tail := FirstOpaqueEscape([], pattern);
      assert pattern == head + ([BACKSLASH, c] + tail);
      EscapeMeans(head, c, tail);
      MisreadIsRead(head, c, tail, slashSafe);
      MisreadIsNoMatch(head, c, tail, slashSafe);
      var input := MisreadInput(head, c, tail);
      assert Accepts(pattern, input, slashSafe) != Matches(Elements(pattern), input, slashSafe);
    }
  }

  // --------------------------------- exact for every pattern: a clean input

  lemma {:induction false} CleanInputReadsAreMatches(pattern: Text, input: Text, slashSafe: bool)
    requires Valid(pattern) && BACKSLASH !in input && Reads(pattern, input, slashSafe)
    ensures Matches(Elements(pattern), input, slashSafe)
    decreases |pattern|, |input|
  {
    if pattern != [] {
      var n := if pattern[0] == BACKSLASH then 2 else 1;
      assert Elements(pattern)[1..] == Elements(pattern[n..]);
      if pattern[0] != STAR {
        assert Advance(pattern, input[0], slashSafe) == n;
        CleanInputReadsAreMatches(pattern[n..], input[1..], slashSafe);
      } else if Reads(pattern[1..], input, slashSafe) {
        CleanInputReadsAreMatches(pattern[1..], input, slashSafe);
      } else {
        CleanInputReadsAreMatches(pattern, input[1..], slashSafe);
      }
    }
  }

  /** Every byte escaped: a pattern for exactly `s`. */
  function EscapeAll(s: Text): Text {
    if s == [] then [] else [BACKSLASH, s[0]] + EscapeAll(s[1..])
  }

  lemma {:induction false} EscapeAllIsLiteral(s: Text)
    ensures Valid(EscapeAll(s)) && Elements(EscapeAll(s)) == Lits(s)
  {
    if s != [] {
      EscapeAllIsLiteral(s[1..]);
      assert EscapeAll(s)[2..] == EscapeAll(s[1..]);
      assert Lits(s) == [Lit(s[0])] + Lits(s[1..]);
    }
  }

  /** The pattern that the matcher misreads on a given input: it escapes every
      byte, except that a backslash at `at` is replaced by an escaped star. */
  function MisreadPattern(input: Text, at: nat): Text
    requires at < |input|
  {
    EscapeAll(input[..at]) + [BACKSLASH, STAR] + EscapeAll(input[at + 1..])
  }

  lemma {:induction false} SampleOfLits(s: Text)
    ensures Sample(Lits(s)) == s
    decreases |s|
  {
    if s != [] {
      SampleOfLits(s[..|s| - 1]);
      assert Lits(s)[..|s| - 1] == Lits(s[..|s| - 1]);
    }
  }

  lemma MisreadOn(input: Text, at: nat, slashSafe: bool)
    requires at < |input| && input[at] == BACKSLASH
    ensures Accepts(MisreadPattern(input, at), input, slashSafe)
    ensures !Matches(Elements(MisreadPattern(input, at)), input, slashSafe)
  {
    hide Reads, Matches, Elements, Valid, Sample, EscapeAll;
    var u, w := input[..at], input[at + 1..];
    EscapeAllIsLiteral(u);
    EscapeAllIsLiteral(w);
    SampleOfLits(u);
    SampleOfLits(w);
    var head, tail := EscapeAll(u), EscapeAll(w);
    assert MisreadInput(head, STAR, tail) == input;
    MisreadIsRead(head, STAR, tail, slashSafe);
    MisreadIsNoMatch(head, STAR, tail, slashSafe);
    EscapeMeans(head, STAR, tail);
    assert MisreadPattern(input, at) == head + ([BACKSLASH, STAR] + tail);
  }

  ghost predicate ExactOnInput(input: Text, slashSafe: bool) {
    forall pattern :: Valid(pattern) ==>
      Accepts(pattern, input, slashSafe) == Matches(Elements(pattern), input, slashSafe)
  }

  /** An input is matched as documented by every well-formed pattern exactly when
      it has no backslash. */
  lemma ExactForAllPatternsIff(input: Text, slashSafe: bool)
    ensures ExactOnInput(input, slashSafe) <==> BACKSLASH !in input
  {
    if BACKSLASH in input {
      var at :| 0 <= at < |input| && input[at] == BACKSLASH;
      MisreadOn(input, at, slashSafe);
      assert Valid(MisreadPattern(input, at));
    } else {
      forall pattern | Valid(pattern)
        ensures Accepts(pattern, input, slashSafe) == Matches(Elements(pattern), input, slashSafe)
      {
        if Matches(Elements(pattern), input, slashSafe) { MeaningIsAccepted(pattern, input, slashSafe); }
        if Reads(pattern, input, slashSafe) { CleanInputReadsAreMatches(pattern, input, slashSafe); }
      }
    }
  }

  // ------------------------------------------------------- literal patterns

  predicate AllLits(es: seq<Element>) {
    forall k :: 0 <= k < |es| ==> es[k].Lit?
  }

  /** A list that starts with literals matches only inputs that start with their bytes. */
  lemma {:induction false} MatchStartsWithLiterals(es: seq<Element>, n: nat, input: Text, slashSafe: bool)
    requires n <= |es| && AllLits(es[..n]) && Matches(es, input, slashSafe)
    ensures |input| >= n && Lits(input[..n]) == es[..n]
  {
    if n > 0 {
      assert es[..n][0].Lit?;
      assert es[1..][..n - 1] == es[..n][1..];
      MatchStartsWithLiterals(es[1..], n - 1, input[1..], slashSafe);
      assert input[..n] == [input[0]] + input[1..][..n - 1];
      assert es[..n] == [es[0]] + es[1..][..n - 1];
    }
  }

  /** The input begins with the bytes of the pattern's literal prefix. */
  predicate StartsWithPrefix(pattern: Text, input: Text) {
    var n := LiteralRun(Elements(pattern));
    |input| >= n && Lits(input[..n]) == Elements(pattern)[..n]
  }

  /** A caller's test on the pattern alone: each escape before the first wildcard is of a backslash. */
  predicate PlainRun(pattern: Text) {
    if pattern == [] then true
    else if pattern[0] == BACKSLASH && |pattern| > 1 then pattern[1] == BACKSLASH && PlainRun(pattern[2..])
    else Magic(pattern[0]) || PlainRun(pattern[1..])
  }

  lemma {:induction false} PlainRunIsRead(pattern: Text, input: Text, slashSafe: bool)
    requires Valid(pattern) && PlainRun(pattern) && Reads(pattern, input, slashSafe)
    ensures StartsWithPrefix(pattern, input)
    decreases |pattern|
  {
    if pattern != [] && !Magic(pattern[0]) {
      var n := if pattern[0] == BACKSLASH then 2 else 1;
      var es, k := Elements(pattern), LiteralRun(Elements(pattern[n..]));
      assert Advance(pattern, input[0], slashSafe) == n;
      PlainRunIsRead(pattern[n..], input[1..], slashSafe);
      assert es[1..] == Elements(pattern[n..]) && es[0] == Lit(input[0]);
      assert input[..k + 1] == [input[0]] + input[1..][..k];
      assert es[..k + 1] == [es[0]] + es[1..][..k];
    }
  }

  /** An accepted input begins with the literal prefix, when it has no backslash or the
      prefix has no escape but of backslashes. */
  lemma AcceptedStartsWithPrefix(pattern: Text, input: Text, slashSafe: bool)
    requires BACKSLASH !in input || PlainRun(pattern)
    requires Accepts(pattern, input, slashSafe)
    ensures StartsWithPrefix(pattern, input)
  {
    if PlainRun(pattern) {
      PlainRunIsRead(pattern, input, slashSafe);
    } else {
      CleanInputReadsAreMatches(pattern, input, slashSafe);
      LiteralRunIs(Elements(pattern));
      MatchStartsWithLiterals(Elements(pattern), LiteralRun(Elements(pattern)), input, slashSafe);
    }
  }

  /** The first escape of another byte in the literal prefix, with the pattern before and after it. */
  lemma {:induction false} FirstOddEscape(pattern: Text) returns (head: Text, c: Byte, tail: Text)
    requires Valid(pattern) && !PlainRun(pattern)
    ensures Valid(head) && Valid(tail) && pattern == head + ([BACKSLASH, c] + tail)
    ensures c != BACKSLASH && AllLits(Elements(head))
    decreases |pattern|
  {
    var n := if pattern[0] == BACKSLASH then 2 else 1;
    if n == 2 && pattern[1] != BACKSLASH {
      head, c, tail := [], pattern[1], pattern[2..];
    } else {
      var unit, rest := pattern[..n], pattern[n..];
      var inner;
      inner, c, tail := FirstOddEscape(rest);
      UnitMeans(unit);
      ElementsJoin(unit, inner);
      head := unit + inner;
      assert pattern == unit + rest;
    }
  }

  lemma {:induction false} RunBeyond(a: seq<Element>, c: Byte, b: seq<Element>)
    requires AllLits(a)
    ensures LiteralRun(a + ([Lit(c)] + b)) > |a|
  {
    var es := a + ([Lit(c)] + b);
    if a == [] { assert es[0] == Lit(c); }
    else {
      assert es[1..] == a[1..] + ([Lit(c)] + b);
      RunBeyond(a[1..], c, b);
    }
  }

  lemma OddEscapeIsMisread(pattern: Text, slashSafe: bool) returns (input: Text)
    requires Valid(pattern) && !PlainRun(pattern)
    ensures Accepts(pattern, input, slashSafe) && !StartsWithPrefix(pattern, input)
  {
    hide Reads, Elements, Valid, Sample, MisreadTail, PlainRun, LiteralRun;
    var head, c, tail := FirstOddEscape(pattern);
    EscapeMeans(head, c, tail);
    MisreadIsRead(head, c, tail, slashSafe);
    var a := Elements(head);
    RunBeyond(a, c, Elements(tail));
    SampleOfLength(a);
    input := MisreadInput(head, c, tail);
    var k, n := |a|, LiteralRun(Elements(pattern));
    assert input[k] == BACKSLASH && Elements(pattern)[k] == Lit(c);
    assert |input| >= n ==> Lits(input[..n])[k] != Elements(pattern)[..n][k];
  }

  lemma {:induction false} SampleOfLength(es: seq<Element>)
    requires AllLits(es)
    ensures |Sample(es)| == |es|
    decreases |es|
  {
    if es != [] {
      var init := es[..|es| - 1];
      assert forall k :: 0 <= k < |init| ==> init[k] == es[k];
      assert es[|es| - 1].Lit?;
      SampleOfLength(init);
    }
  }

  ghost predicate PrefixHoldsOnInput(input: Text, slashSafe: bool) {
    forall pattern :: Accepts(pattern, input, slashSafe) ==> StartsWithPrefix(pattern, input)
  }

  /** An input begins with the literal prefix of every pattern that accepts it exactly when
      it has no backslash. */
  lemma PrefixForAllPatternsIff(input: Text, slashSafe: bool)
    ensures PrefixHoldsOnInput(input, slashSafe) <==> BACKSLASH !in input
  {
    hide Reads, Elements, PlainRun, StartsWithPrefix;
    if BACKSLASH in input {
      var at :| 0 <= at < |input| && input[at] == BACKSLASH;
      MisreadOn(input, at, slashSafe);
      MisreadIsLiteral(input, at);
      WholeLiteral(MisreadPattern(input, at), input);
    } else {
      forall pattern | Accepts(pattern, input, slashSafe) ensures StartsWithPrefix(pattern, input) {
        AcceptedStartsWithPrefix(pattern, input, slashSafe);
      }
    }
  }

  lemma WholeLiteral(pattern: Text, input: Text)
    requires AllLits(Elements(pattern)) && |Elements(pattern)| == |input|
    ensures StartsWithPrefix(pattern, input) <==> Elements(pattern) == Lits(input)
  {
    LiteralRunIs(Elements(pattern));
    assert input[..|input|] == input && Elements(pattern)[..|input|] == Elements(pattern);
  }

  ghost predicate PrefixHoldsOnPattern(pattern: Text, slashSafe: bool) {
    forall input :: Accepts(pattern, input, slashSafe) ==> StartsWithPrefix(pattern, input)
  }

  /** Every input that a well-formed pattern accepts begins with its literal prefix exactly
      when each escape in that prefix is of a backslash. */
  lemma PrefixForAllInputsIff(pattern: Text, slashSafe: bool)
    requires Valid(pattern)
    ensures PrefixHoldsOnPattern(pattern, slashSafe) <==> PlainRun(pattern)
  {
    hide Reads, Elements, PlainRun, StartsWithPrefix;
    if PlainRun(pattern) {
      forall input | Accepts(pattern, input, slashSafe) ensures StartsWithPrefix(pattern, input) {
        AcceptedStartsWithPrefix(pattern, input, slashSafe);
      }
    } else {
      var input := OddEscapeIsMisread(pattern, slashSafe);
    }
  }

  method GlobMatchLiteral(pattern: Text, input: Text) returns (r: bool)
    ensures r == (AllLits(Elements(pattern)) && Accepts(pattern, input, false))
    ensures Valid(pattern) && AllLits(Elements(pattern)) && Elements(pattern) == Lits(input) ==> r
    ensures BACKSLASH !in input || Transparent(pattern, Closed) ==>
      (r <==> Valid(pattern) && Elements(pattern) == Lits(input))
  {
    var wild := GlobHasWildcard(pattern);
    if wild { return false; }
    var matched, steps := GlobMatchMode(pattern, input, false);
    r := matched;
    if Valid(pattern) { LiteralMeaning(pattern, input); }
  }

  lemma LiteralMeaning(pattern: Text, input: Text)
    requires Valid(pattern) && AllLits(Elements(pattern))
    ensures Elements(pattern) == Lits(input) ==> Accepts(pattern, input, false)
    ensures BACKSLASH !in input || Transparent(pattern, Closed) ==>
      (Accepts(pattern, input, false) <==> Elements(pattern) == Lits(input))
  {
    OnlyLiteral(Elements(pattern), input);
    if Elements(pattern) == Lits(input) { MeaningIsAccepted(pattern, input, false); }
    ExactForAllPatternsIff(input, false);
    ExactForAllInputsIff(pattern, false);
  }

  lemma MisreadIsLiteral(input: Text, at: nat)
    requires at < |input| && input[at] == BACKSLASH
    ensures Valid(MisreadPattern(input, at)) && AllLits(Elements(MisreadPattern(input, at)))
    ensures Elements(MisreadPattern(input, at)) != Lits(input) && |Elements(MisreadPattern(input, at))| == |input|
  {
    hide Valid, Elements, EscapeAll;
    EscapeAllIsLiteral(input[..at]);
    EscapeAllIsLiteral(input[at + 1..]);
    EscapeMeans(EscapeAll(input[..at]), STAR, EscapeAll(input[at + 1..]));
    assert MisreadPattern(input, at) == EscapeAll(input[..at]) + ([BACKSLASH, STAR] + EscapeAll(input[at + 1..]));
    assert Elements(MisreadPattern(input, at))[at] == Lit(STAR) && Lits(input)[at] == Lit(BACKSLASH);
  }

  ghost predicate LiteralMatchIsEquality(input: Text) {
    forall pattern :: Valid(pattern) && AllLits(Elements(pattern)) ==>
      Accepts(pattern, input, false) == (Elements(pattern) == Lits(input))
  }

  /** On a given input, literal matching is equality for all wildcard-free patterns
      exactly when the input has no backslash. */
  lemma LiteralEqualityIff(input: Text)
    ensures LiteralMatchIsEquality(input) <==> BACKSLASH !in input
  {
    if BACKSLASH in input {
      var at :| 0 <= at < |input| && input[at] == BACKSLASH;
      MisreadOn(input, at, false);
      MisreadIsLiteral(input, at);
    } else {
      forall pattern | Valid(pattern) && AllLits(Elements(pattern))
        ensures Accepts(pattern, input, false) == (Elements(pattern) == Lits(input))
      {
        LiteralMeaning(pattern, input);
      }
    }
  }

  lemma {:induction false} PlainLiteralIsTransparent(pattern: Text)
    requires Valid(pattern) && AllLits(Elements(pattern))
    ensures Transparent(pattern, Closed) <==> PlainRun(pattern)
    decreases |pattern|
  {
    if pattern != [] {
      var n := if pattern[0] == BACKSLASH then 2 else 1;
      var es := Elements(pattern);
      assert es[0].Lit? && es[1..] == Elements(pattern[n..]);
      PlainLiteralIsTransparent(pattern[n..]);
    }
  }

  ghost predicate PatternMeansEquality(pattern: Text) {
    forall input :: Accepts(pattern, input, false) == (Elements(pattern) == Lits(input))
  }

  /** A well-formed pattern without wildcards is matched by equality on all inputs exactly
      when each of its escapes is of a backslash. */
  lemma LiteralPatternIff(pattern: Text)
    requires Valid(pattern) && AllLits(Elements(pattern))
    ensures PatternMeansEquality(pattern) <==> PlainRun(pattern)
  {
    hide Reads, Elements, PlainRun, Transparent, Matches;
    PlainLiteralIsTransparent(pattern);
    ExactForAllInputsIff(pattern, false);
    forall input ensures Matches(Elements(pattern), input, false) <==> Elements(pattern) == Lits(input) {
      OnlyLiteral(Elements(pattern), input);
    }
  }

  lemma OnlyLiteral(es: seq<Element>, input: Text)
    requires AllLits(es)
    ensures Matches(es, input, false) <==> es == Lits(input)
  {
    var bytes := seq(|es|, i requires 0 <= i < |es| => es[i].c);
    assert Lits(bytes) == es;
    LitsMatchThemselves(bytes, input, false);
    if es == Lits(input) {
      assert forall k :: 0 <= k < |es| ==> Lits(input)[k].c == bytes[k];
      assert bytes == input;
    }
  }

  /** In particular a pattern without backslashes is matched as documented. */
  lemma {:induction false} PlainPatternIsTransparent(pattern: Text, context: Context)
    requires BACKSLASH !in pattern
    ensures Valid(pattern) && Transparent(pattern, context)
  {
    if pattern != [] { PlainPatternIsTransparent(pattern[1..], After(context, ElementOf(pattern[0]))); }
  }

  /** The concrete failure: the pattern `\*` is documented to match only `*`, but accepts `\xyz`. */
  lemma EscapedStarAcceptsBackslash()
    ensures var pattern: Text := [92, 42]; var input: Text := [92, 120, 121, 122];
      && Valid(pattern) && Elements(pattern) == [Lit(42)]
      && Accepts(pattern, input, false) && !Matches(Elements(pattern), input, false)
  {
    var pattern: Text := [92, 42];
    var input: Text := [92, 120, 121, 122];
    var star: Text := [42];
    assert pattern[2..] == [] && pattern[1..] == star && star[1..] == [];
    assert input[1..][1..] == [121, 122] && input[1..][1..][1..] == [122] && input[1..][1..][1..][1..] == [];
    assert Reads(star, [122], false) && Reads(star, [121, 122], false);
  }
}
