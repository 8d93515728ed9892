/** noqeri.semver: parsing the three numbers of a version core and comparing them. */
module SemverCore {
  import opened Bytes
  import opened Orders
  import opened Decimals
  import opened Texts
  import opened Std
  import Versions

  predicate GoodField(s: Text) {
    IsCanonical(s) && Value(s) <= U64_MAX
  }

  /** Three canonical numerals of at most 64 bits, joined by dots. */
  predicate IsTriple(src: Text) {
    |Split(src, DOT)| == 3 && forall k :: 0 <= k < 3 ==> GoodField(Split(src, DOT)[k])
  }

  function Triple(src: Text): (t: seq<U64>)
    requires IsTriple(src)
    ensures |t| == 3
  {
    var f := Split(src, DOT);
    [Value(f[0]), Value(f[1]), Value(f[2])]
  }

  function Print(t: seq<U64>): Text
    requires |t| == 3
  {
    Join([Numeral(t[0]), Numeral(t[1]), Numeral(t[2])], DOT)
  }

  // ------------------------------------------------------------- the parser

  /** A prefix of a good field that is not empty is itself a good field. */
  lemma PrefixIsGood(field: Text, n: nat)
    requires GoodField(field) && 0 < n <= |field|
    ensures GoodField(field[..n])
  {
    PrefixIsSmaller(field, n);
  }

  /** The field being read goes on at least to the next byte that is no dot. */
  lemma FieldGoesOn(current: Text, rest: Text)
    requires DOT !in current && rest != [] && rest[0] != DOT
    ensures var field := Split(current + rest, DOT)[0];
      |field| > |current| && field[..|current| + 1] == current + [rest[0]]
  {
    var s := current + rest;
    var i := IndexOf(s, DOT);
    if i < |s| { assert s[i] == DOT; }
    assert forall k :: 0 <= k < |current| ==> s[k] == current[k];
    assert i > |current|;
    assert Split(s, DOT)[0] == s[..i];
    assert s[..i][..|current| + 1] == current + [rest[0]];
  }

  lemma FieldEnds(current: Text, rest: Text)
    requires DOT !in current
    ensures Split(current + [DOT] + rest, DOT) == [current] + Split(rest, DOT)
    ensures Split(current, DOT) == [current]
  {
    CutAt(current, DOT, rest);
  }

  /** What the parser knows after `i` bytes: the fields closed by a dot and the one it is in. */
  ghost predicate Parsing(src: Text, i: nat, closed: seq<Text>, current: Text) {
    && i <= |src| && |closed| <= 2 && DOT !in current
    && Split(src, DOT) == closed + Split(current + src[i..], DOT)
    && (forall k :: 0 <= k < |closed| ==> GoodField(closed[k]))
    && (current != [] ==> GoodField(current))
  }

  lemma ParsingStart(src: Text)
    ensures Parsing(src, 0, [], [])
  {
    assert [] + src[0..] == src;
    assert Split(src, DOT) == [] + Split(src, DOT);
  }

  lemma ParsingDigit(src: Text, i: nat, closed: seq<Text>, current: Text)
    requires Parsing(src, i, closed, current) && i < |src| && src[i] != DOT
    ensures GoodField(current + [src[i]]) ==> Parsing(src, i + 1, closed, current + [src[i]])
    ensures IsTriple(src) ==> GoodField(current + [src[i]])
  {
    assert current + src[i..] == current + [src[i]] + src[i + 1..];
    FieldGoesOn(current, src[i..]);
    if IsTriple(src) {
      var fields := Split(src, DOT);
      var field := Split(current + src[i..], DOT)[0];
      assert field == fields[|closed|];
      PrefixIsGood(field, |current| + 1);
    }
  }

  lemma ParsingDot(src: Text, i: nat, closed: seq<Text>, current: Text)
    requires Parsing(src, i, closed, current) && i < |src| && src[i] == DOT
    ensures current != [] && |closed| < 2 ==> Parsing(src, i + 1, closed + [current], [])
    ensures IsTriple(src) ==> current != [] && |closed| < 2
  {
    hide Split;
    assert current + src[i..] == current + [DOT] + src[i + 1..];
    FieldEnds(current, src[i + 1..]);
    assert [] + src[i + 1..] == src[i + 1..];
    var later := Split(src[i + 1..], DOT);
    assert Split(src, DOT) == closed + [current] + later;
    assert Split(src, DOT)[|closed|] == current;
  }

  lemma ParsingEnd(src: Text, closed: seq<Text>, current: Text)
    requires Parsing(src, |src|, closed, current)
    ensures Split(src, DOT) == closed + [current]
    ensures IsTriple(src) <==> |closed| == 2 && current != []
  {
    assert current + src[|src|..] == current;
    FieldEnds(current, []);
    var fields := Split(src, DOT);
    assert fields == closed + [current];
    assert fields[|closed|] == current;
    assert forall k :: 0 <= k < |closed| ==> fields[k] == closed[k];
  }

  lemma TripleIsLong(src: Text)
    ensures IsTriple(src) ==> |src| >= 5
  {
    if IsTriple(src) {
      JoinSplit(src, DOT);
      var f := Split(src, DOT);
      assert GoodField(f[0]) && GoodField(f[1]) && GoodField(f[2]);
      assert Join(f, DOT) == f[0] + [DOT] + Join(f[1..], DOT);
      assert Join(f[1..], DOT) == f[1] + [DOT] + Join(f[1..][1..], DOT);
    }
  }

  lemma DigitAppended(current: Text, c: Byte)
    requires AllDigits(current)
    ensures IsDigit(c) ==> AllDigits(current + [c]) && Value(current + [c]) == 10 * Value(current) + (c - 48)
    ensures !IsDigit(c) ==> !AllDigits(current + [c])
  {
    assert (current + [c])[..|current|] == current;
    assert (current + [c])[|current|] == c;
  }

  /** A twenty-first digit is always one too many. */
  lemma TwentyDigitsAtMost(s: Text)
    requires GoodField(s)
    ensures |s| <= 20
  {
    if |s| > 1 {
      CanonicalAbove(s);
      if |s| >= 21 { Pow10Grows(20, |s| - 1); }
    }
    TenToTwenty();
  }

  /** The numbers kept about the field being read. */
  predicate InField(current: Text, number: int, digits: int, leadingZero: bool) {
    && AllDigits(current) && digits == |current| && 0 <= number == Value(current)
    && if current == [] then number == 0 else GoodField(current) && leadingZero == (current[0] == 48)
  }

  /** The tests before a digit is taken. */
  predicate TakesDigit(c: Byte, number: U64, digits: nat, leadingZero: bool) {
    && IsDigit(c) && digits <= 19 && !(digits > 0 && leadingZero)
    && number <= (U64_MAX - (c - 48)) / 10
  }

  /** The tests are exact: a digit is taken when it leaves a good field. */
  lemma DigitTaken(current: Text, c: Byte, number: U64, digits: nat, leadingZero: bool)
    requires InField(current, number, digits, leadingZero)
    ensures TakesDigit(c, number, digits, leadingZero) <==> GoodField(current + [c])
    ensures TakesDigit(c, number, digits, leadingZero) ==>
      InField(current + [c], number * 10 + (c - 48), digits + 1, if digits == 0 then c == 48 else leadingZero)
  {
    DigitAppended(current, c);
    if IsDigit(c) { OverflowTest(number, c - 48); }
    if GoodField(current + [c]) { TwentyDigitsAtMost(current + [c]); }
    if current != [] { TwentyDigitsAtMost(current); }
  }

  /** The numbers of the closed fields are in the destination. */
  ghost predicate Stored(closed: seq<Text>, dst: seq<U64>) {
    |closed| <= |dst| && forall k :: 0 <= k < |closed| ==> GoodField(closed[k]) && dst[k] == Value(closed[k])
  }

  lemma StoredNext(closed: seq<Text>, dst: seq<U64>, current: Text, number: U64, digits: nat, leadingZero: bool)
    requires Stored(closed, dst) && |closed| < |dst|
    requires InField(current, number, digits, leadingZero) && current != []
    ensures Stored(closed + [current], dst[|closed| := number])
    ensures InField([], 0, 0, false)
  {
  }

  /** Accepts exactly the dotted triples, whatever else the destination holds. */
  method SemverParseCore(src: Text, dst: array<U64>) returns (r: bool)
    modifies dst
    ensures r <==> dst.Length >= 3 && IsTriple(src)
    ensures r ==> dst[..] == Triple(src) + old(dst[..])[3..]
    ensures !r && dst.Length >= 2 ==> dst[2..] == old(dst[..])[2..]
    ensures dst.Length < 3 ==> dst[..] == old(dst[..])
  {
    hide IsTriple, Triple, Parsing, InField, Stored, GoodField, Split;
    TripleIsLong(src);
    if dst.Length < 3 || |src| < 5 { return false; }
    ghost var before := dst[2..];
    var part: nat := 0;
    var number: U64 := 0;
    var digits: nat := 0;
    var leadingZero := false;
    var i := 0;
    ghost var closed: seq<Text>, current: Text := [], [];
    ParsingStart(src);
    NothingParsed(dst[..]);
    while i < |src|
      invariant i <= |src| && Parsing(src, i, closed, current)
      invariant part == |closed| <= 2 && digits == |current| && InField(current, number, digits, leadingZero)
      invariant Stored(closed, dst[..]) && dst[2..] == before
    {
      var c := src[i];
      if c == DOT {
        ParsingDot(src, i, closed, current);
        if digits == 0 || part >= 2 { return false; }
        StoredNext(closed, dst[..], current, number, digits, leadingZero);
        ghost var memory := dst[..][part := number];
        dst[part] := number;
        assert dst[..] == memory;
        closed, current := closed + [current], [];
        part := part + 1;
        number := 0;
        digits := 0;
        leadingZero := false;
      } else {
        ParsingDigit(src, i, closed, current);
        DigitTaken(current, c, number, digits, leadingZero);
        if !IsDigit(c) || digits > 19 { return false; }
        if digits == 0 { leadingZero := c == 48; }
        if digits > 0 && leadingZero { return false; }
        var digit := c - 48;
        if number > (U64_MAX - digit) / 10 { return false; }
        number := number * 10 + digit;
        current := current + [c];
        digits := digits + 1;
      }
      i := i + 1;
    }
    ParsingEnd(src, closed, current);
    if part != 2 || digits == 0 { return false; }
    Finished(src, closed, current, dst[..], number, digits, leadingZero);
    dst[2] := number;
    assert dst[..] == [dst[0], dst[1], number] + before[1..];
    return true;
  }

  lemma NothingParsed(dst: seq<U64>)
    ensures InField([], 0, 0, false) && Stored([], dst)
  {
  }

  lemma Finished(src: Text, closed: seq<Text>, current: Text, dst: seq<U64>,
                 number: U64, digits: nat, leadingZero: bool)
    requires Parsing(src, |src|, closed, current) && |closed| == 2 && current != [] && |dst| >= 3
    requires Stored(closed, dst) && InField(current, number, digits, leadingZero)
    ensures IsTriple(src) && Triple(src) == [dst[0], dst[1], number]
  {
    ParsingEnd(src, closed, current);
  }

  // -------------------------------------------------------- parse and print

  lemma ThreeFields(a: Text, b: Text, c: Text)
    requires GoodField(a) && GoodField(b) && GoodField(c)
    ensures var s := Join([a, b, c], DOT); Split(s, DOT) == [a, b, c] && IsTriple(s)
  {
    SplitJoin([a, b, c], DOT);
  }

  /** Parsing what was printed gives the numbers back. */
  lemma ParsePrint(t: seq<U64>)
    requires |t| == 3
    ensures IsTriple(Print(t)) && Triple(Print(t)) == t
  {
    NumeralIsCanonical(t[0]);
    NumeralIsCanonical(t[1]);
    NumeralIsCanonical(t[2]);
    ThreeFields(Numeral(t[0]), Numeral(t[1]), Numeral(t[2]));
  }

  /** Printing what was parsed gives the text back. */
  lemma PrintParse(src: Text)
    requires IsTriple(src)
    ensures Print(Triple(src)) == src
  {
    var f := Split(src, DOT);
    assert GoodField(f[0]) && GoodField(f[1]) && GoodField(f[2]);
    NumeralOfValue(f[0]);
    NumeralOfValue(f[1]);
    NumeralOfValue(f[2]);
    JoinSplit(src, DOT);
    assert f == [f[0], f[1], f[2]];
  }

  // -------------------------------------------------------------- comparison

  function CompareTriples(a: seq<U64>, b: seq<U64>): int {
    Lexicographic((x: U64, y: U64) => CompareInts(x, y), a, b)
  }

  method SemverCompareCore(a: seq<U64>, b: seq<U64>) returns (r: int)
    ensures r == if |a| < 3 || |b| < 3 then 0 else CompareTriples(a[..3], b[..3])
  {
    if |a| < 3 || |b| < 3 { return 0; }
    var i := 0;
    while i < 3
      invariant 0 <= i <= 3
      invariant CompareTriples(a[..3], b[..3]) == CompareTriples(a[i..3], b[i..3])
    {
      assert a[i..3][1..] == a[i + 1..3] && b[i..3][1..] == b[i + 1..3];
      if a[i] < b[i] { return -1; }
      if a[i] > b[i] { return 1; }
      i := i + 1;
    }
    return 0;
  }

  /** A core text is a registry version with no other part. */
  lemma TripleIsVersion(src: Text)
    requires IsTriple(src)
    ensures Versions.IsClean(src) && Versions.Core(src) == Split(src, DOT) && Versions.Prerelease(src).None?
  {
    JoinSplit(src, DOT);
    var f := Split(src, DOT);
    forall b: Byte | b in src ensures b == DOT || IsDigit(b) {
      JoinMembers(f, DOT, b);
      if b != DOT {
        var k :| 0 <= k < |f| && b in f[k];
        assert GoodField(f[k]);
      }
    }
    assert PLUS !in src && HYPHEN !in src;
    assert Before(src, PLUS) == src && Before(src, HYPHEN) == src;
    assert forall k :: 0 <= k < 3 ==> GoodField(f[k]);
  }

  lemma {:induction false} FieldsAsNumbers(a: seq<Text>, b: seq<Text>, x: seq<U64>, y: seq<U64>)
    requires |a| == |x| && |b| == |y|
    requires forall k :: 0 <= k < |a| ==> GoodField(a[k]) && x[k] == Value(a[k])
    requires forall k :: 0 <= k < |b| ==> GoodField(b[k]) && y[k] == Value(b[k])
    ensures Lexicographic(Versions.CompareField, a, b) == CompareTriples(x, y)
    decreases |a|
  {
    if a != [] && b != [] {
      assert GoodField(a[0]) && GoodField(b[0]);
      Versions.FieldsCompareAsNumbers(a[0], b[0]);
      FieldsAsNumbers(a[1..], b[1..], x[1..], y[1..]);
    }
  }

  /** The package's comparison of parsed cores is the registry's comparison of the texts. */
  lemma CoreComparisonsAgree(a: Text, b: Text)
    requires IsTriple(a) && IsTriple(b)
    ensures |Versions.Core(a)| == 3 && |Versions.Core(b)| == 3
    ensures Versions.Compare(a, b) == CompareTriples(Triple(a), Triple(b))
  {
    TripleIsVersion(a);
    TripleIsVersion(b);
    var f, g := Split(a, DOT), Split(b, DOT);
    assert f[..3] == f && g[..3] == g;
    FieldsAsNumbers(f, g, Triple(a), Triple(b));
  }
}
