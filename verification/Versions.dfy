/** Version texts and their order, as internal/registry/catalog.go compares them. */
module Versions {
  import opened Bytes
  import opened Orders
  import opened Outcomes
  import opened Decimals
  import opened Texts
  import opened Sorting

  // --------------------------------------------------------- version texts

  predicate IdentifierByte(c: Byte) {
    IsDigit(c) || 65 <= c <= 90 || 97 <= c <= 122 || c == DOT || c == HYPHEN
  }

  predicate IsSuffix(s: Text) {
    s != [] && forall i :: 0 <= i < |s| ==> IdentifierByte(s[i])
  }

  /** Three canonical numerals, then an optional `-` part, then an optional `+` part. */
  predicate IsVersion(v: Text) {
    && (PLUS in v ==> IsSuffix(After(v, PLUS)))
    && (HYPHEN in Main(v) ==> IsSuffix(After(Main(v), HYPHEN)))
    && |Core(v)| == 3
    && forall i :: 0 <= i < 3 ==> IsCanonical(Core(v)[i])
  }

  /** Everything but the build metadata. */
  function Main(v: Text): Text {
    Before(v, PLUS)
  }

  function Core(v: Text): (fields: seq<Text>)
    ensures |fields| >= 1
  {
    Split(Before(Main(v), HYPHEN), DOT)
  }

  function Prerelease(v: Text): Option<seq<Text>> {
    if HYPHEN in Main(v) then Some(Split(After(Main(v), HYPHEN), DOT)) else None
  }

  // ---------------------------------------------------------- the pattern

  /** `0`, or digits of which the first is not `0`. */
  predicate IsField(s: Text) {
    s == Ascii("0") || (s != [] && 49 <= s[0] <= 57 && forall i :: 0 <= i < |s| ==> 48 <= s[i] <= 57)
  }

  /** Nothing, or a mark and then digits, letters, dots and hyphens, at least one. */
  predicate IsTail(mark: Byte, s: Text) {
    s == [] || (|s| >= 2 && s[0] == mark && forall i :: 1 <= i < |s| ==>
      48 <= s[i] <= 57 || 65 <= s[i] <= 90 || 97 <= s[i] <= 122 || s[i] == 45 || s[i] == 46)
  }

  predicate PatternParts(v: Text, x: Text, y: Text, z: Text, pre: Text, build: Text) {
    && IsField(x) && IsField(y) && IsField(z) && IsTail(45, pre) && IsTail(43, build)
    && v == x + Ascii(".") + y + Ascii(".") + z + pre + build
  }

  /** The registry's pattern, read as what it generates. */
  ghost predicate MatchesPattern(v: Text) {
    exists x, y, z, pre, build :: PatternParts(v, x, y, z, pre, build)
  }

  lemma FieldIff(s: Text)
    ensures IsField(s) <==> IsCanonical(s)
  {
    if IsCanonical(s) && |s| == 1 && s[0] == 48 { assert s == Ascii("0"); }
  }

  /** A mark and what follows its first occurrence, or nothing. */
  function Tail(s: Text, mark: Byte): Text {
    if mark in s then [mark] + After(s, mark) else []
  }

  lemma TailFollows(s: Text, mark: Byte)
    ensures s == Before(s, mark) + Tail(s, mark)
    ensures IsTail(mark, Tail(s, mark)) <==> (mark in s ==> IsSuffix(After(s, mark)))
  {
    if mark in s {
      hide IsTail, IsSuffix, IndexOf;
      TailIff(mark, After(s, mark));
      assert s[IndexOf(s, mark)] == mark;
      assert s == Before(s, mark) + [mark] + After(s, mark);
    }
  }

  lemma TailIff(mark: Byte, suffix: Text)
    ensures IsTail(mark, [mark] + suffix) <==> IsSuffix(suffix)
  {
    var t := [mark] + suffix;
    if IsTail(mark, t) {
      forall i | 0 <= i < |suffix| ensures IdentifierByte(suffix[i]) { assert suffix[i] == t[i + 1]; }
    }
  }

  lemma TailIsCut(head: Text, mark: Byte, tail: Text)
    requires mark !in head && IsTail(mark, tail)
    ensures Before(head + tail, mark) == head && Tail(head + tail, mark) == tail
  {
    if tail == [] {
      assert head + tail == head;
    } else {
      CutAt(head, mark, tail[1..]);
      assert head + tail == head + [mark] + tail[1..] && tail == [mark] + tail[1..];
    }
  }

  lemma ThreeJoined(x: Text, y: Text, z: Text)
    ensures Join([x, y, z], DOT) == x + Ascii(".") + y + Ascii(".") + z
  {
    assert [x, y, z][1..] == [y, z] && [y, z][1..] == [z] && Ascii(".") == [DOT];
    assert Join([y, z], DOT) == y + [DOT] + z;
    assert x + [DOT] + (y + [DOT] + z) == x + [DOT] + y + [DOT] + z;
  }

  lemma VersionHasParts(v: Text)
    requires IsVersion(v)
    ensures MatchesPattern(v)
  {
    hide IndexOf, Split, Join, IsTail, IsSuffix;
    var m, f := Main(v), Core(v);
    TailFollows(v, PLUS);
    TailFollows(m, HYPHEN);
    JoinSplit(Before(m, HYPHEN), DOT);
    FieldIff(f[0]);
    FieldIff(f[1]);
    FieldIff(f[2]);
    assert f == [f[0], f[1], f[2]];
    ThreeJoined(f[0], f[1], f[2]);
    assert PatternParts(v, f[0], f[1], f[2], Tail(m, HYPHEN), Tail(v, PLUS));
  }

  lemma PartsAreVersion(v: Text, x: Text, y: Text, z: Text, pre: Text, build: Text)
    requires PatternParts(v, x, y, z, pre, build)
    ensures IsVersion(v)
  {
    hide IndexOf, Split, Join;
    var fields := [x, y, z];
    var core := Join(fields, DOT);
    ThreeJoined(x, y, z);
    FieldIff(x);
    FieldIff(y);
    FieldIff(z);
    assert FreeOf(fields, DOT);
    SplitJoin(fields, DOT);
    forall b: Byte | b in core ensures b == DOT || IsDigit(b) {
      JoinMembers(fields, DOT, b);
    }
    TailIsCut(core, HYPHEN, pre);
    TailIsCut(core + pre, PLUS, build);
    assert v == core + pre + build;
    TailFollows(v, PLUS);
    TailFollows(core + pre, HYPHEN);
  }

  /** The texts admitted as versions are those the registry's pattern generates. */
  lemma VersionIff(v: Text)
    ensures IsVersion(v) <==> MatchesPattern(v)
  {
    hide IsVersion, PatternParts;
    if IsVersion(v) { VersionHasParts(v); }
    forall x, y, z, pre, build | PatternParts(v, x, y, z, pre, build) ensures IsVersion(v) {
      PartsAreVersion(v, x, y, z, pre, build);
    }
  }

  // ------------------------------------------------------ the order of Go

  function CompareField(x: Text, y: Text): int {
    if ParseUint(x).Some? && ParseUint(y).Some? then CompareInts(ParseUint(x).value, ParseUint(y).value)
    else if |x| != |y| then CompareInts(|x|, |y|)
    else CompareBytes(x, y)
  }

  function CompareCore(a: seq<Text>, b: seq<Text>): int
    requires |a| >= 3 && |b| >= 3
  {
    Lexicographic(CompareField, a[..3], b[..3])
  }

  function CompareIdentifier(x: Text, y: Text): int {
    if x == y then 0
    else match (ParseUint(x), ParseUint(y))
      case (Some(m), Some(n)) => if m > n then 1 else -1
      case (Some(m), None) => -1
      case (None, Some(n)) => 1
      case (None, None) => CompareBytes(x, y)
  }

  function ComparePrerelease(a: Option<seq<Text>>, b: Option<seq<Text>>): int {
    match (a, b)
    case (None, None) => 0
    case (None, Some(_)) => 1
    case (Some(_), None) => -1
    case (Some(x), Some(y)) => Lexicographic(CompareIdentifier, x, y)
  }

  function Compare(a: Text, b: Text): int
    requires |Core(a)| >= 3 && |Core(b)| >= 3
  {
    var c := CompareCore(Core(a), Core(b));
    if c != 0 then c else ComparePrerelease(Prerelease(a), Prerelease(b))
  }

  // ---------------------------------------------------------------- fields

  /** The fallback by length and then by text is the order of unbounded numbers. */
  lemma FieldsCompareAsNumbers(x: Text, y: Text)
    requires IsCanonical(x) && IsCanonical(y)
    ensures CompareField(x, y) == CompareInts(Value(x), Value(y))
    ensures CompareField(x, y) == 0 <==> x == y
  {
    if |x| < |y| { ShorterIsSmaller(x, y); }
    if |y| < |x| { ShorterIsSmaller(y, x); }
    if |x| == |y| { SameLengthCompare(x, y); }
    if Value(x) == Value(y) { CanonicalIsUnique(x, y); }
  }

  lemma FieldsOrdered()
    ensures IsTotalOrder(CompareField, IsCanonical)
  {
    forall x, y | IsCanonical(x) && IsCanonical(y)
      ensures CompareField(x, y) == CompareInts(Value(x), Value(y))
      ensures CompareField(x, y) == 0 <==> x == y
    {
      FieldsCompareAsNumbers(x, y);
    }
  }

  // ----------------------------------------------------------- identifiers

  /** Not a number with a leading zero, as section 9 of SemVer 2.0.0 asks. */
  predicate NoLeadingZero(id: Text) {
    IsNumeral(id) ==> IsCanonical(id)
  }

  lemma IdentifierAntisymmetric(x: Text, y: Text)
    ensures CompareIdentifier(x, y) == 0 <==> x == y
    ensures CompareIdentifier(x, y) == -CompareIdentifier(y, x) <==> !SameNumber(x, y)
  {
    CompareBytesOrdered(x, y, y);
  }

  /** Two spellings of one number: the comparison puts each before the other. */
  predicate SameNumber(x: Text, y: Text) {
    x != y && ParseUint(x).Some? && ParseUint(x) == ParseUint(y)
  }

  lemma IdentifierTransitive(x: Text, y: Text, z: Text)
    requires !SameNumber(x, y) && !SameNumber(y, z) && !SameNumber(x, z)
    requires CompareIdentifier(x, y) <= 0 && CompareIdentifier(y, z) <= 0
    ensures CompareIdentifier(x, z) <= 0
  {
    CompareBytesOrdered(x, y, z);
    CompareBytesOrdered(x, z, z);
    CompareBytesOrdered(y, z, z);
  }

  // -------------------------------------------------------------- versions

  predicate IdentifiersAreClean(pre: Option<seq<Text>>) {
    pre.Some? ==> All(NoLeadingZero, pre.value)
  }

  /** The registry's pattern, and no numeric prerelease identifier with a leading zero.
      Every version that SemVer 2.0.0 admits is clean; so are some with empty
      identifiers, which its section 9 forbids. */
  predicate IsClean(v: Text) {
    IsVersion(v) && IdentifiersAreClean(Prerelease(v))
  }

  lemma MainFromParts(v: Text)
    ensures Main(v) == Join(Core(v), DOT)
      + if Prerelease(v).Some? then [HYPHEN] + Join(Prerelease(v).value, DOT) else []
  {
    hide Join;
    var m := Main(v);
    JoinSplit(Before(m, HYPHEN), DOT);
    if HYPHEN in m {
      JoinSplit(After(m, HYPHEN), DOT);
      assert m == Before(m, HYPHEN) + ([HYPHEN] + After(m, HYPHEN));
    } else {
      assert Before(m, HYPHEN) == m;
    }
  }

  lemma VersionHasCore(v: Text)
    requires IsVersion(v)
    ensures |Core(v)| == 3
  {
  }

  lemma CoreOrder(a: Text, b: Text)
    requires IsVersion(a) && IsVersion(b)
    ensures CompareCore(Core(a), Core(b)) == -CompareCore(Core(b), Core(a))
    ensures CompareCore(Core(a), Core(b)) == 0 <==> Core(a) == Core(b)
  {
    FieldsOrdered();
    assert Core(a)[..3] == Core(a) && Core(b)[..3] == Core(b);
    LexicographicAntisymmetric(CompareField, IsCanonical, Core(a), Core(b));
  }

  lemma CoreTransitive(a: Text, b: Text, c: Text)
    requires IsVersion(a) && IsVersion(b) && IsVersion(c)
    requires CompareCore(Core(a), Core(b)) <= 0 && CompareCore(Core(b), Core(c)) <= 0
    ensures CompareCore(Core(a), Core(c)) <= 0
  {
    FieldsOrdered();
    assert Core(a)[..3] == Core(a) && Core(b)[..3] == Core(b) && Core(c)[..3] == Core(c);
    LexicographicTransitive(CompareField, IsCanonical, Core(a), Core(b), Core(c));
  }

  lemma {:induction false} IdentifiersZero(a: seq<Text>, b: seq<Text>)
    ensures Lexicographic(CompareIdentifier, a, b) == 0 <==> a == b
  {
    if a != [] && b != [] {
      IdentifierAntisymmetric(a[0], b[0]);
      IdentifiersZero(a[1..], b[1..]);
      assert a == [a[0]] + a[1..] && b == [b[0]] + b[1..];
    }
  }

  /** Two versions compare as equal exactly when they differ at most in build metadata. */
  lemma ZeroMeansSameMain(a: Text, b: Text)
    requires IsVersion(a) && IsVersion(b)
    ensures Compare(a, b) == 0 <==> Main(a) == Main(b)
  {
    CoreOrder(a, b);
    if Prerelease(a).Some? && Prerelease(b).Some? { IdentifiersZero(Prerelease(a).value, Prerelease(b).value); }
    MainFromParts(a);
    MainFromParts(b);
  }

  // ------------------------------------- when the comparison is consistent

  /** The first position where two lists of identifiers differ. */
  function FirstDifference(a: seq<Text>, b: seq<Text>): Option<(Text, Text)> {
    if a == [] || b == [] then None
    else if a[0] != b[0] then Some((a[0], b[0]))
    else FirstDifference(a[1..], b[1..])
  }

  /** The lists first differ in two spellings of one number. */
  predicate ListsClash(a: seq<Text>, b: seq<Text>) {
    var d := FirstDifference(a, b);
    d.Some? && SameNumber(d.value.0, d.value.1)
  }

  /** Equal cores, and prerelease parts that clash. */
  predicate Clash(a: Text, b: Text) {
    && Core(a) == Core(b) && Prerelease(a).Some? && Prerelease(b).Some?
    && ListsClash(Prerelease(a).value, Prerelease(b).value)
  }

  lemma {:induction false} DifferenceDecides(a: seq<Text>, b: seq<Text>)
    ensures Lexicographic(CompareIdentifier, a, b) == -Lexicographic(CompareIdentifier, b, a) <==> !ListsClash(a, b)
    ensures var d := FirstDifference(a, b);
      d.Some? ==> Lexicographic(CompareIdentifier, a, b) == CompareIdentifier(d.value.0, d.value.1)
    ensures ListsClash(a, b) ==> ListsClash(b, a) && Lexicographic(CompareIdentifier, a, b) == -1
  {
    if a != [] && b != [] {
      IdentifierAntisymmetric(a[0], b[0]);
      IdentifierAntisymmetric(b[0], a[0]);
      if a[0] == b[0] { DifferenceDecides(a[1..], b[1..]); }
    }
  }

  lemma {:induction false} IdentifiersTransitive(a: seq<Text>, b: seq<Text>, c: seq<Text>)
    requires !ListsClash(a, b) && !ListsClash(b, c) && !ListsClash(a, c)
    requires Lexicographic(CompareIdentifier, a, b) <= 0 && Lexicographic(CompareIdentifier, b, c) <= 0
    ensures Lexicographic(CompareIdentifier, a, c) <= 0
  {
    if a != [] && b != [] && c != [] {
      hide CompareIdentifier, SameNumber;
      IdentifierAntisymmetric(a[0], b[0]);
      IdentifierAntisymmetric(b[0], c[0]);
      IdentifierAntisymmetric(a[0], c[0]);
      if a[0] == b[0] == c[0] {
        IdentifiersTransitive(a[1..], b[1..], c[1..]);
      } else if a[0] != b[0] && b[0] != c[0] && a[0] != c[0] {
        IdentifierTransitive(a[0], b[0], c[0]);
      }
    }
  }

  /** Over every pair of texts the registry admits, swapping the arguments negates the
      answer exactly when the two do not clash; two that clash are each before the other. */
  lemma ConsistentIffNoClash(a: Text, b: Text)
    requires IsVersion(a) && IsVersion(b)
    ensures Compare(a, b) == -Compare(b, a) <==> !Clash(a, b)
    ensures Clash(a, b) ==> Clash(b, a) && Compare(a, b) == -1 && Compare(b, a) == -1
  {
    CoreOrder(a, b);
    if Prerelease(a).Some? && Prerelease(b).Some? {
      DifferenceDecides(Prerelease(a).value, Prerelease(b).value);
      DifferenceDecides(Prerelease(b).value, Prerelease(a).value);
    }
  }

  /** On admitted versions no two of which clash the comparison is a total preorder: it
      is antisymmetric, transitive and, being a number, total; its ties are the versions
      with the same main part. */
  lemma CompareIsTotalPreorder(a: Text, b: Text, c: Text)
    requires IsVersion(a) && IsVersion(b) && IsVersion(c)
    requires !Clash(a, b) && !Clash(b, c) && !Clash(a, c)
    ensures Compare(a, b) == -Compare(b, a)
    ensures Compare(a, b) <= 0 && Compare(b, c) <= 0 ==> Compare(a, c) <= 0
    ensures Compare(a, b) == 0 <==> Main(a) == Main(b)
  {
    hide IsVersion, Clash, Compare;
    VersionHasCore(a);
    VersionHasCore(b);
    VersionHasCore(c);
    ConsistentIffNoClash(a, b);
    ZeroMeansSameMain(a, b);
    if Compare(a, b) <= 0 && Compare(b, c) <= 0 { CompareTransitive(a, b, c); }
  }

  lemma CompareTransitive(a: Text, b: Text, c: Text)
    requires IsVersion(a) && IsVersion(b) && IsVersion(c)
    requires !Clash(a, b) && !Clash(b, c) && !Clash(a, c)
    requires Compare(a, b) <= 0 && Compare(b, c) <= 0
    ensures Compare(a, c) <= 0
  {
    hide CompareCore, Core, Prerelease, ListsClash, Lexicographic;
    CoreOrder(a, b);
    CoreOrder(b, c);
    CoreOrder(a, c);
    CoreTransitive(a, b, c);
    if Core(a) == Core(c) {
      MiddleCore(a, b, c);
      var x, y, z := Prerelease(a), Prerelease(b), Prerelease(c);
      if x.Some? && y.Some? && z.Some? { IdentifiersTransitive(x.value, y.value, z.value); }
    }
  }

  lemma MiddleCore(a: Text, b: Text, c: Text)
    requires IsVersion(a) && IsVersion(b) && IsVersion(c) && Core(a) == Core(c)
    requires CompareCore(Core(a), Core(b)) <= 0 && CompareCore(Core(b), Core(c)) <= 0
    ensures Core(b) == Core(a)
  {
    CoreOrder(a, b);
  }

  /** The comparison as a three-way one ranks exactly those lists of admitted versions
      in which no two clash. */
  lemma CompareRanksIff(versions: seq<Text>)
    requires forall v :: v in versions ==> IsVersion(v)
    ensures Ranks(CompareTexts, (v: Text) => v in versions) <==>
      forall a, b :: a in versions && b in versions ==> !Clash(a, b)
  {
    hide IsVersion, Clash, Core, Compare;
    forall v | v in versions ensures |Core(v)| == 3 {
      VersionHasCore(v);
    }
    if forall a, b :: a in versions && b in versions ==> !Clash(a, b) {
      forall a, b, c | a in versions && b in versions && c in versions
        ensures CompareTexts(a, b) == -CompareTexts(b, a)
        ensures CompareTexts(a, b) <= 0 && CompareTexts(b, c) <= 0 ==> CompareTexts(a, c) <= 0
      {
        CompareIsTotalPreorder(a, b, c);
      }
    } else {
      var a, b :| a in versions && b in versions && Clash(a, b);
      ConsistentIffNoClash(a, b);
      var within := (v: Text) => v in versions;
      assert within(a) && within(b) && CompareTexts(a, b) == CompareTexts(b, a) == -1;
    }
  }

  /** On all texts; those that are not versions are not compared. */
  function CompareTexts(a: Text, b: Text): int {
    if |Core(a)| >= 3 && |Core(b)| >= 3 then Compare(a, b) else 0
  }

  // --------------------------------------------- what is left for the sort

  lemma {:induction false} LaterIdentifiersTransitive(a: seq<Text>, b: seq<Text>, c: seq<Text>)
    requires Lexicographic(CompareIdentifier, a, b) > 0 && Lexicographic(CompareIdentifier, b, c) > 0
    ensures Lexicographic(CompareIdentifier, a, c) > 0
  {
    if c != [] {
      hide CompareIdentifier;
      IdentifierAntisymmetric(a[0], b[0]);
      IdentifierAntisymmetric(b[0], c[0]);
      if a[0] == b[0] == c[0] {
        LaterIdentifiersTransitive(a[1..], b[1..], c[1..]);
      } else if a[0] != b[0] && b[0] != c[0] {
        LaterIdentifierTransitive(a[0], b[0], c[0]);
      }
    }
  }

  lemma LaterIdentifierTransitive(x: Text, y: Text, z: Text)
    requires CompareIdentifier(x, y) > 0 && CompareIdentifier(y, z) > 0
    ensures CompareIdentifier(x, z) > 0
  {
    CompareBytesOrdered(x, y, z);
    CompareBytesOrdered(z, y, x);
    CompareBytesOrdered(x, z, z);
  }

  lemma LaterTransitive(a: Text, b: Text, c: Text)
    requires IsVersion(a) && IsVersion(b) && IsVersion(c)
    requires Compare(a, b) > 0 && Compare(b, c) > 0
    ensures Compare(a, c) > 0
  {
    hide CompareCore, Core, Prerelease, Lexicographic;
    CoreOrder(a, b);
    CoreOrder(b, c);
    CoreOrder(a, c);
    CoreTransitive(c, b, a);
    if Core(a) == Core(c) {
      MiddleCore(c, b, a);
      var x, y, z := Prerelease(a), Prerelease(b), Prerelease(c);
      if x.Some? && y.Some? && z.Some? { LaterIdentifiersTransitive(x.value, y.value, z.value); }
    }
  }

  /** Over all admitted versions, clashing or not, being later is a strict partial order;
      neither of two is later exactly when they differ in build metadata at most, or clash. */
  lemma LaterIsStrictOrder(a: Text, b: Text, c: Text)
    requires IsVersion(a) && IsVersion(b) && IsVersion(c)
    ensures Compare(a, b) > 0 ==> Compare(b, a) < 0
    ensures Compare(a, b) > 0 && Compare(b, c) > 0 ==> Compare(a, c) > 0
    ensures Compare(a, b) <= 0 && Compare(b, a) <= 0 <==> Main(a) == Main(b) || Clash(a, b)
  {
    hide IsVersion, Clash, Compare, Core;
    VersionHasCore(a);
    VersionHasCore(b);
    VersionHasCore(c);
    ConsistentIffNoClash(a, b);
    ZeroMeansSameMain(a, b);
    if Compare(a, b) > 0 && Compare(b, c) > 0 { LaterTransitive(a, b, c); }
  }

  /** Versions with the same main part compare alike. */
  lemma SameMainComparesAlike(a: Text, b: Text, c: Text)
    requires |Core(a)| >= 3 && |Core(b)| >= 3 && |Core(c)| >= 3 && Main(a) == Main(b)
    ensures Compare(a, c) == Compare(b, c) && Compare(c, a) == Compare(c, b)
    ensures Clash(a, c) <==> Clash(b, c)
    ensures Clash(c, a) <==> Clash(c, b)
  {
  }

  // ------------------------------------------------------------- precedence

  /** Section 11 of SemVer 2.0.0 for one pair of identifiers. */
  function IdentifierPrecedence(x: Text, y: Text): int {
    if IsNumeral(x) && IsNumeral(y) then CompareInts(Value(x), Value(y))
    else if IsNumeral(x) then -1
    else if IsNumeral(y) then 1
    else CompareBytes(x, y)
  }

  /** Section 11 of SemVer 2.0.0, with numbers of any size. */
  function Precedence(a: Text, b: Text): int
    requires IsVersion(a) && IsVersion(b)
  {
    var numbers := (x: Text, y: Text) => if IsNumeral(x) && IsNumeral(y) then CompareInts(Value(x), Value(y)) else 0;
    var c := Lexicographic(numbers, Core(a), Core(b));
    if c != 0 then c
    else match (Prerelease(a), Prerelease(b))
      case (None, None) => 0
      case (None, Some(_)) => 1
      case (Some(_), None) => -1
      case (Some(x), Some(y)) => Lexicographic(IdentifierPrecedence, x, y)
  }

  lemma {:induction false} CorePrecedence(a: seq<Text>, b: seq<Text>, numbers: (Text, Text) -> int)
    requires All(IsCanonical, a) && All(IsCanonical, b)
    requires forall x, y :: IsNumeral(x) && IsNumeral(y) ==> numbers(x, y) == CompareInts(Value(x), Value(y))
    ensures Lexicographic(CompareField, a, b) == Lexicographic(numbers, a, b)
  {
    if a != [] && b != [] {
      FieldsCompareAsNumbers(a[0], b[0]);
      CorePrecedence(a[1..], b[1..], numbers);
    }
  }

  /** Clean identifiers rank as section 11 asks when neither exceeds 64 bits. */
  lemma IdentifierRanks(x: Text, y: Text)
    requires NoLeadingZero(x) && NoLeadingZero(y)
    requires IsNumeral(x) ==> Value(x) <= U64_MAX
    requires IsNumeral(y) ==> Value(y) <= U64_MAX
    ensures CompareIdentifier(x, y) == IdentifierPrecedence(x, y)
  {
    CompareBytesOrdered(x, y, y);
    if x != y && IsNumeral(x) && IsNumeral(y) && Value(x) == Value(y) { CanonicalIsUnique(x, y); }
  }

  lemma {:induction false} IdentifierDifference(a: seq<Text>, b: seq<Text>)
    requires All(NoLeadingZero, a) && All(NoLeadingZero, b)
    ensures var d := FirstDifference(a, b);
      && (d.Some? ==>
            && NoLeadingZero(d.value.0) && NoLeadingZero(d.value.1) && d.value.0 != d.value.1
            && d.value.0 in a && d.value.1 in b
            && Lexicographic(IdentifierPrecedence, a, b) == IdentifierPrecedence(d.value.0, d.value.1))
      && (d.None? ==> Lexicographic(IdentifierPrecedence, a, b) == Lexicographic(CompareIdentifier, a, b))
  {
    if a != [] && b != [] {
      assert NoLeadingZero(a[0]) && NoLeadingZero(b[0]);
      CompareBytesOrdered(a[0], b[0], b[0]);
      if a[0] == b[0] {
        IdentifierDifference(a[1..], b[1..]);
      } else if IsNumeral(a[0]) && IsNumeral(b[0]) && Value(a[0]) == Value(b[0]) {
        CanonicalIsUnique(a[0], b[0]);
      }
    }
  }

  /** An identifier that ranks as section 11 asks against every other: a number of at
      most 64 bits, or a text above every numeral. */
  predicate RanksWell(id: Text) {
    if IsNumeral(id) then Value(id) <= U64_MAX else AboveNumerals(id)
  }

  /** Nines, and then a byte above the digits. */
  predicate AboveNumerals(s: Text) {
    s != [] && (s[0] > 57 || (s[0] == 57 && AboveNumerals(s[1..])))
  }

  lemma {:induction false} AboveEveryNumeral(s: Text, digits: Text)
    requires AllDigits(digits) && AboveNumerals(s)
    ensures CompareBytes(s, digits) == 1
  {
    if digits != [] {
      if s[0] == 57 && digits[0] == 57 { AboveEveryNumeral(s[1..], digits[1..]); }
    }
  }

  function Nines(n: nat): (s: Text)
    ensures |s| == n && forall i :: 0 <= i < n ==> s[i] == 57
  {
    seq(n, i => 57)
  }

  lemma {:induction false} BelowSomeNumeral(s: Text, n: nat)
    requires !AboveNumerals(s) && n > |s|
    ensures CompareBytes(s, Nines(n)) == -1
  {
    if s != [] {
      assert Nines(n)[1..] == Nines(n - 1);
      if s[0] == 57 { BelowSomeNumeral(s[1..], n - 1); }
    }
  }

  lemma NinesAreLarge(n: nat)
    requires n > 20
    ensures IsCanonical(Nines(n)) && Value(Nines(n)) > U64_MAX
  {
    CanonicalAbove(Nines(n));
    Pow10Grows(20, n - 1);
    TenToTwenty();
  }

  /** Ranking one identifier against every clean other. */
  lemma RanksWellIff(id: Text)
    requires NoLeadingZero(id)
    ensures RanksWell(id) ==> forall other :: NoLeadingZero(other) ==>
      CompareIdentifier(id, other) == IdentifierPrecedence(id, other)
    ensures !RanksWell(id) ==>
      && NoLeadingZero(Rival(id)) && IsSuffix(Rival(id)) && DOT !in Rival(id) && Rival(id) != id
      && CompareIdentifier(id, Rival(id)) != IdentifierPrecedence(id, Rival(id))
  {
    if RanksWell(id) {
      forall other | NoLeadingZero(other) ensures CompareIdentifier(id, other) == IdentifierPrecedence(id, other) {
        if IsNumeral(other) && Value(other) > U64_MAX {
          if !IsNumeral(id) { AboveEveryNumeral(id, other); }
        } else {
          IdentifierRanks(id, other);
        }
      }
    } else if IsNumeral(id) {
      CompareBytesOrdered(id, [HYPHEN], [HYPHEN]);
    } else {
      var n := |id| + 21;
      NinesAreLarge(n);
      BelowSomeNumeral(id, n);
    }
  }

  /** A clean identifier against which a badly ranking one is misplaced. */
  function Rival(id: Text): Text {
    if IsNumeral(id) then [HYPHEN] else Nines(|id| + 21)
  }

  /** A version text with the given parts and no build metadata. */
  function Assemble(core: seq<Text>, ids: seq<Text>): Text
    requires core != [] && ids != []
  {
    Join(core, DOT) + [HYPHEN] + Join(ids, DOT)
  }

  predicate AreIdentifiers(ids: seq<Text>) {
    forall i :: 0 <= i < |ids| ==> DOT !in ids[i] && forall k :: 0 <= k < |ids[i]| ==> IdentifierByte(ids[i][k])
  }

  lemma AssembledParts(core: seq<Text>, ids: seq<Text>)
    requires |core| == 3 && All(IsCanonical, core) && ids != [] && AreIdentifiers(ids)
    requires Join(ids, DOT) != []
    ensures IsVersion(Assemble(core, ids)) && Main(Assemble(core, ids)) == Assemble(core, ids)
    ensures Core(Assemble(core, ids)) == core && Prerelease(Assemble(core, ids)) == Some(ids)
  {
    hide IndexOf, Split, Join;
    var c, p := Join(core, DOT), Join(ids, DOT);
    var v := Assemble(core, ids);
    forall b: Byte | b in c ensures b == DOT || IsDigit(b) {
      JoinMembers(core, DOT, b);
      if b != DOT { var i :| 0 <= i < |core| && b in core[i]; assert IsCanonical(core[i]); }
    }
    forall b: Byte | b in p ensures IdentifierByte(b) {
      JoinMembers(ids, DOT, b);
    }
    assert PLUS !in v by {
      assert PLUS in v ==> PLUS in c || PLUS == HYPHEN || PLUS in p;
    }
    assert Before(v, PLUS) == v;
    CutAt(c, HYPHEN, p);
    assert forall k :: 0 <= k < |p| ==> p[k] in p;
    assert FreeOf(core, DOT) by {
      forall i | 0 <= i < |core| ensures DOT !in core[i] { assert IsCanonical(core[i]); }
    }
    SplitJoin(core, DOT);
    SplitJoin(ids, DOT);
  }

  /** The version that a badly ranking identifier at `i` is misplaced against. */
  lemma RivalVersion(a: Text, i: nat) returns (b: Text)
    requires IsClean(a) && Prerelease(a).Some? && i < |Prerelease(a).value| && !RanksWell(Prerelease(a).value[i])
    ensures IsClean(b) && Core(b) == Core(a)
    ensures Prerelease(b) == Some(Prerelease(a).value[i := Rival(Prerelease(a).value[i])])
  {
    hide IndexOf, Split, Join;
    var ids := Prerelease(a).value;
    var other := Rival(ids[i]);
    assert NoLeadingZero(ids[i]);
    RanksWellIff(ids[i]);
    var pre := After(Main(a), HYPHEN);
    JoinSplit(pre, DOT);
    forall k | 0 <= k < |ids| ensures forall j :: 0 <= j < |ids[k]| ==> IdentifierByte(ids[k][j]) {
      forall j | 0 <= j < |ids[k]| ensures IdentifierByte(ids[k][j]) {
        JoinMembers(ids, DOT, ids[k][j]);
        assert ids[k][j] in pre;
      }
    }
    var changed := ids[i := other];
    JoinMembers(changed, DOT, other[0]);
    assert other[0] in changed[i];
    AssembledParts(Core(a), changed);
    b := Assemble(Core(a), changed);
    assert All(NoLeadingZero, changed);
  }

  lemma {:induction false} ChangedDifference(ids: seq<Text>, i: nat, other: Text)
    requires i < |ids| && ids[i] != other
    ensures FirstDifference(ids, ids[i := other]) == Some((ids[i], other))
  {
    if i > 0 {
      assert ids[i := other][1..] == ids[1..][i - 1 := other];
      ChangedDifference(ids[1..], i - 1, other);
    }
  }

  lemma CompareByDifference(a: Text, b: Text)
    requires IsClean(a) && IsClean(b)
    ensures var x, y := Prerelease(a), Prerelease(b);
      if Core(a) == Core(b) && x.Some? && y.Some? && FirstDifference(x.value, y.value).Some? then
        var d := FirstDifference(x.value, y.value).value;
        Compare(a, b) == CompareIdentifier(d.0, d.1) && Precedence(a, b) == IdentifierPrecedence(d.0, d.1)
      else Compare(a, b) == Precedence(a, b)
  {
    var numbers := (x: Text, y: Text) => if IsNumeral(x) && IsNumeral(y) then CompareInts(Value(x), Value(y)) else 0;
    CoreOrder(a, b);
    assert Core(a)[..3] == Core(a) && Core(b)[..3] == Core(b);
    CorePrecedence(Core(a), Core(b), numbers);
    if Prerelease(a).Some? && Prerelease(b).Some? {
      DifferenceDecides(Prerelease(a).value, Prerelease(b).value);
      IdentifierDifference(Prerelease(a).value, Prerelease(b).value);
    }
  }

  /** With every numeric identifier within 64 bits, the comparison is SemVer precedence. */
  lemma CompareIsPrecedence(a: Text, b: Text)
    requires IsClean(a) && IsClean(b)
    requires FitsU64(Prerelease(a)) && FitsU64(Prerelease(b))
    ensures Compare(a, b) == Precedence(a, b)
  {
    CompareByDifference(a, b);
    if Prerelease(a).Some? && Prerelease(b).Some? {
      var d := FirstDifference(Prerelease(a).value, Prerelease(b).value);
      IdentifierDifference(Prerelease(a).value, Prerelease(b).value);
      if d.Some? { IdentifierRanks(d.value.0, d.value.1); }
    }
  }

  predicate FitsU64(pre: Option<seq<Text>>) {
    pre.Some? ==> forall id :: id in pre.value && IsNumeral(id) ==> Value(id) <= U64_MAX
  }

  /** A version is placed among all clean versions as section 11 asks exactly when each
      of its prerelease identifiers ranks well. */
  lemma PlacedByPrecedenceIff(a: Text)
    requires IsClean(a)
    ensures (forall b :: IsClean(b) ==> Compare(a, b) == Precedence(a, b)) <==>
      (Prerelease(a).Some? ==> All(RanksWell, Prerelease(a).value))
  {
    if Prerelease(a).Some? && !All(RanksWell, Prerelease(a).value) {
      var i :| 0 <= i < |Prerelease(a).value| && !RanksWell(Prerelease(a).value[i]);
      var b := RivalVersion(a, i);
      assert NoLeadingZero(Prerelease(a).value[i]);
      RanksWellIff(Prerelease(a).value[i]);
      ChangedDifference(Prerelease(a).value, i, Rival(Prerelease(a).value[i]));
      CompareByDifference(a, b);
    } else {
      forall b | IsClean(b) ensures Compare(a, b) == Precedence(a, b) {
        CompareByDifference(a, b);
        if Prerelease(a).Some? && Prerelease(b).Some? {
          var d := FirstDifference(Prerelease(a).value, Prerelease(b).value);
          IdentifierDifference(Prerelease(a).value, Prerelease(b).value);
          if d.Some? { RanksWellIff(d.value.0); }
        }
      }
    }
  }

  const ONE_ZERO_ZERO: seq<Text> := [[49], [48], [48]]

  /** Every number of at most 64 bits clashes with its spelling with one more zero:
      `1.0.0-1` and `1.0.0-01` are each before the other. */
  lemma SpellingsClash(digits: Text)
    requires IsCanonical(digits) && Value(digits) <= U64_MAX
    ensures var a, b := Assemble(ONE_ZERO_ZERO, [digits]), Assemble(ONE_ZERO_ZERO, [[ZERO] + digits]);
      IsVersion(a) && IsVersion(b) && Compare(a, b) == -1 && Compare(b, a) == -1
  {
    hide IndexOf, Split, IsVersion, Assemble, Value;
    var padded := [ZERO] + digits;
    ValueFront(padded);
    assert padded[1..] == digits;
    AssembledParts(ONE_ZERO_ZERO, [digits]);
    AssembledParts(ONE_ZERO_ZERO, [padded]);
    CoreOrder(Assemble(ONE_ZERO_ZERO, [digits]), Assemble(ONE_ZERO_ZERO, [padded]));
  }

  /** Two clashes in a row that end in an order: `1.0.0-1` and `1.0.0-1.a` both clash
      with `1.0.0-01`, and the second is later than the first. */
  lemma ThreeSpellings(digits: Text)
    requires IsCanonical(digits) && Value(digits) <= U64_MAX
    ensures var a, b, c := Assemble(ONE_ZERO_ZERO, [digits]), Assemble(ONE_ZERO_ZERO, [[ZERO] + digits]),
                           Assemble(ONE_ZERO_ZERO, [digits, [97]]);
      && IsVersion(a) && IsVersion(b) && IsVersion(c)
      && Clash(a, b) && Clash(b, c) && !Clash(a, c) && Main(a) != Main(c) && Compare(c, a) == 1
  {
    hide IndexOf, Split, IsVersion, Assemble, Value, Main, Prerelease, Core;
    var padded := [ZERO] + digits;
    ValueFront(padded);
    assert padded[1..] == digits;
    AssembledParts(ONE_ZERO_ZERO, [digits]);
    AssembledParts(ONE_ZERO_ZERO, [padded]);
    var longer := [digits, [97]];
    assert Join(longer, DOT) != [] by { JoinMembers(longer, DOT, 97); }
    AssembledParts(ONE_ZERO_ZERO, longer);
    assert longer[1..] == [[97]] && [digits][1..] == [];
    assert FirstDifference([digits], [padded]) == Some((digits, padded));
    assert FirstDifference([padded], longer) == Some((padded, digits));
    assert FirstDifference([digits], longer) == None;
    assert Lexicographic(CompareIdentifier, longer, [digits]) == Lexicographic(CompareIdentifier, [[97]], []) == 1;
    CoreOrder(Assemble(ONE_ZERO_ZERO, longer), Assemble(ONE_ZERO_ZERO, [digits]));
  }

  lemma HyphenBeforeLarge(digits: Text)
    requires IsCanonical(digits) && Value(digits) > U64_MAX
    ensures CompareIdentifier(digits, [HYPHEN]) == 1 && IdentifierPrecedence(digits, [HYPHEN]) == -1
  {
    assert digits[0] >= 48;
  }

  /** Every number of more than 64 bits is placed after `1.0.0--`, though section 11 puts
      every number before every other identifier. */
  lemma LargeNumberMisplaced(digits: Text)
    requires IsCanonical(digits) && Value(digits) > U64_MAX
    ensures var a, b := Assemble(ONE_ZERO_ZERO, [digits]), Assemble(ONE_ZERO_ZERO, [[HYPHEN]]);
      IsClean(a) && IsClean(b) && Compare(a, b) == 1 && Precedence(a, b) == -1
  {
    hide Core, Prerelease, Main, Compare, Precedence, CompareIdentifier, IdentifierPrecedence, Assemble, Value;
    var hyphen: Text := [HYPHEN];
    AssembledParts(ONE_ZERO_ZERO, [digits]);
    AssembledParts(ONE_ZERO_ZERO, [hyphen]);
    assert FirstDifference([digits], [hyphen]) == Some((digits, hyphen));
    HyphenBeforeLarge(digits);
    CompareByDifference(Assemble(ONE_ZERO_ZERO, [digits]), Assemble(ONE_ZERO_ZERO, [hyphen]));
  }

  // ------------------------------------------------------------- the loops

  /** semverCompare: the early returns of the two loops amount to `Compare`. */
  method SemverCompare(a: Text, b: Text) returns (r: int)
    requires |Core(a)| >= 3 && |Core(b)| >= 3
    ensures r == Compare(a, b)
  {
    hide Core, Prerelease, ParseUint, CompareBytes;
    var av, bv := Core(a), Core(b);
    var i := 0;
    while i < 3
      invariant 0 <= i <= 3
      invariant CompareCore(av, bv) == Lexicographic(CompareField, av[i..3], bv[i..3])
    {
      assert av[i..3][1..] == av[i + 1..3] && bv[i..3][1..] == bv[i + 1..3];
      var ai, bi := ParseUint(av[i]), ParseUint(bv[i]);
      if ai.Some? && bi.Some? {
        if ai.value > bi.value { return 1; }
        if ai.value < bi.value { return -1; }
      } else {
        if |av[i]| > |bv[i]| { return 1; }
        if |av[i]| < |bv[i]| { return -1; }
        var c := CompareBytes(av[i], bv[i]);
        CompareBytesBounded(av[i], bv[i]);
        if c > 0 { return 1; }
        if c < 0 { return -1; }
      }
      i := i + 1;
    }
    assert CompareCore(av, bv) == 0;
    var ax, bx := Prerelease(a), Prerelease(b);
    if ax.None? && bx.Some? { return 1; }
    if ax.Some? && bx.None? { return -1; }
    if ax.Some? && bx.Some? {
      var xs, ys := ax.value, bx.value;
      i := 0;
      while i < |xs| && i < |ys|
        invariant i <= |xs| && i <= |ys|
        invariant Compare(a, b) == Lexicographic(CompareIdentifier, xs[i..], ys[i..])
      {
        assert xs[i..][1..] == xs[i + 1..] && ys[i..][1..] == ys[i + 1..];
        if xs[i] != ys[i] {
          CompareBytesBounded(xs[i], ys[i]);
          CompareBytesOrdered(xs[i], ys[i], ys[i]);
          var xi, yi := ParseUint(xs[i]), ParseUint(ys[i]);
          if xi.Some? && yi.Some? {
            if xi.value > yi.value { return 1; }
            return -1;
          }
          if xi.Some? { return -1; }
          if yi.Some? { return 1; }
          if CompareBytes(xs[i], ys[i]) > 0 { return 1; }
          return -1;
        }
        i := i + 1;
      }
      if |xs| > |ys| { return 1; }
      if |xs| < |ys| { return -1; }
    }
    return 0;
  }

  lemma {:induction false} CompareBytesBounded(a: Text, b: Text)
    ensures -1 <= CompareBytes(a, b) <= 1
  {
    if a != [] && b != [] { CompareBytesBounded(a[1..], b[1..]); }
  }
}
