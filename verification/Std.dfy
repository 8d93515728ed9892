/** noqeri.std: parsing and printing unsigned 64-bit decimals. */
module Std {
  import opened Bytes
  import opened Decimals
  import opened Buffers

  /** The digits of a number, without leading zeros. */
  function Numeral(n: nat): (s: Text)
    ensures |s| >= 1
  {
    if n < 10 then [48 + n] else Numeral(n / 10) + [48 + n % 10]
  }

  /** Printing gives the canonical numeral of the number. */
  lemma {:induction false} NumeralIsCanonical(n: nat)
    ensures IsCanonical(Numeral(n)) && Value(Numeral(n)) == n
    ensures n > 0 ==> Numeral(n)[0] != 48
  {
    var s := Numeral(n);
    if n < 10 {
      assert s[..0] == [];
    } else {
      NumeralIsCanonical(n / 10);
      assert s[..|s| - 1] == Numeral(n / 10);
    }
  }

  /** Printing inverts parsing on canonical numerals. */
  lemma {:induction false} NumeralOfValue(s: Text)
    requires IsCanonical(s)
    ensures Numeral(Value(s)) == s
  {
    NumeralIsCanonical(Value(s));
    CanonicalIsUnique(s, Numeral(Value(s)));
  }

  /** No numeral for the number is shorter than the printed one. */
  lemma {:induction false} NumeralIsShortest(s: Text)
    requires IsNumeral(s)
    ensures |Numeral(Value(s))| <= |s|
    decreases |s|
  {
    if IsCanonical(s) {
      NumeralOfValue(s);
    } else {
      ValueFront(s);
      NumeralIsShortest(s[1..]);
    }
  }

  lemma ValueExtends(s: Text, i: nat)
    requires i < |s| && AllDigits(s[..i]) && IsDigit(s[i])
    ensures AllDigits(s[..i + 1]) && Value(s[..i + 1]) == 10 * Value(s[..i]) + (s[i] - 48)
  {
    assert s[..i + 1][..i] == s[..i];
  }

  lemma {:induction false} PrefixIsSmaller(s: Text, i: nat)
    requires AllDigits(s) && i <= |s|
    ensures Value(s[..i]) <= Value(s)
    decreases |s|
  {
    if i < |s| {
      var init := s[..|s| - 1];
      assert init[..i] == s[..i];
      PrefixIsSmaller(init, i);
    } else {
      assert s[..i] == s;
    }
  }

  /** The overflow test before a digit is appended is exact. */
  lemma OverflowTest(n: U64, digit: nat)
    requires digit < 10
    ensures n > (U64_MAX - digit) / 10 <==> 10 * n + digit > U64_MAX
  {
  }

  /** Succeeds exactly on numerals that fit 64 bits, as strconv.ParseUint does, and
      leaves the destination untouched otherwise. */
  method StdParseU64(src: Text, dst: array<U64>) returns (r: bool)
    modifies dst
    ensures r <==> dst.Length > 0 && ParseUint(src).Some?
    ensures dst[..] == if r then old(dst[..])[0 := ParseUint(src).value] else old(dst[..])
  {
    if |src| == 0 || dst.Length == 0 { return false; }
    var n: U64 := 0;
    var i := 0;
    while i < |src|
      invariant i <= |src| && AllDigits(src[..i]) && n == Value(src[..i])
      invariant dst[..] == old(dst[..])
    {
      if !IsDigit(src[i]) { return false; }
      var digit := src[i] - 48;
      ValueExtends(src, i);
      OverflowTest(n, digit);
      if n > (U64_MAX - digit) / 10 {
        if AllDigits(src) { PrefixIsSmaller(src, i + 1); }
        return false;
      }
      n := n * 10 + digit;
      i := i + 1;
    }
    assert src[..i] == src;
    dst[0] := n;
    return true;
  }

  lemma NumeralSteps(s: Text, i: nat, n: nat)
    requires 0 < i <= |s| && s[..i] == Numeral(n)
    ensures s[i - 1] == 48 + n % 10
    ensures i > 1 ==> s[..i - 1] == Numeral(n / 10)
  {
    assert s[i - 1] == s[..i][i - 1];
    assert s[..i - 1] == s[..i][..i - 1];
  }

  /** The first loop of stdFormatU64 counts the digits. */
  method NumeralLength(number: U64) returns (width: nat)
    ensures width == |Numeral(number)|
  {
    var n: U64 := number;
    width := 1;
    while n >= 10
      invariant width >= 1 && |Numeral(number)| == width - 1 + |Numeral(n)|
    {
      n := n / 10;
      width := width + 1;
    }
  }

  method StdFormatU64(number: U64, dst: array<Byte>) returns (r: int)
    modifies dst
    ensures dst.Length < |Numeral(number)| ==> r == -1 && dst[..] == old(dst[..])
    ensures dst.Length >= |Numeral(number)| ==>
      r == |Numeral(number)| && dst[..] == Written(old(dst[..]), Numeral(number))
  {
    ghost var s, before := Numeral(number), dst[..];
    var width := NumeralLength(number);
    if dst.Length < width { return -1; }
    var n: U64 := number;
    var i := width;
    assert s[..i] == s;
    WrittenFromEnds(before, s);
    while i > 0
      invariant 0 <= i <= width
      invariant i > 0 ==> s[..i] == Numeral(n)
      invariant dst[..] == WrittenFrom(before, s, i)
    {
      hide Numeral, WrittenFrom;
      NumeralSteps(s, i, n);
      i := i - 1;
      PutBefore(dst, before, s, n % 10 + 48, i);
      n := n / 10;
    }
    return width;
  }
}
