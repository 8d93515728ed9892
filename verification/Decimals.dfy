/** Decimal numerals as byte strings, and their values as unbounded naturals.

    Numerals without leading zeros are ordered by length and then as texts, and
    are the only ones of their kind for their values. */
module Decimals {
  import opened Bytes
  import opened Orders
  import opened Outcomes

  function Pow10(n: nat): (p: nat)
    ensures p >= 1
  {
    if n == 0 then 1 else 10 * Pow10(n - 1)
  }

  function Value(s: Text): nat
    requires AllDigits(s)
    decreases |s|
  {
    if s == [] then 0 else 10 * Value(s[..|s| - 1]) + (s[|s| - 1] - 48)
  }

  predicate IsNumeral(s: Text) {
    s != [] && AllDigits(s)
  }

  /** A numeral with no leading zero; zero itself is one digit. */
  predicate IsCanonical(s: Text) {
    IsNumeral(s) && (|s| > 1 ==> s[0] != 48)
  }

  lemma {:induction false} ValueFront(s: Text)
    requires s != [] && AllDigits(s)
    ensures AllDigits(s[1..]) && Value(s) == (s[0] - 48) * Pow10(|s| - 1) + Value(s[1..])
    decreases |s|
  {
    if |s| == 1 {
      assert s[..0] == [] && s[1..] == [];
    } else {
      var n := |s| - 1;
      var init, tail := s[..n], s[1..];
      ValueFront(init);
      assert init[1..] == tail[..n - 1] && tail[n - 1] == s[n];
      ShiftValue(s[0] - 48, Pow10(n - 1), Value(init[1..]), s[n] - 48);
      assert AllDigits(tail) && Value(tail) == 10 * Value(init[1..]) + (s[n] - 48);
    }
  }

  lemma ShiftValue(d: nat, p: nat, v: nat, e: nat)
    ensures 10 * (d * p + v) + e == d * (10 * p) + (10 * v + e)
  {
  }

  lemma {:induction false} ValueBelow(s: Text)
    requires AllDigits(s)
    ensures Value(s) < Pow10(|s|)
    decreases |s|
  {
    if s != [] { ValueBelow(s[..|s| - 1]); }
  }

  lemma CanonicalAbove(s: Text)
    requires IsCanonical(s) && |s| > 1
    ensures Value(s) >= Pow10(|s| - 1)
  {
    ValueFront(s);
    assert (s[0] - 48) * Pow10(|s| - 1) >= Pow10(|s| - 1) by {
      MulAtLeast(s[0] - 48, Pow10(|s| - 1));
    }
  }

  lemma MulAtLeast(d: nat, p: nat)
    requires d >= 1
    ensures d * p >= p
  {
  }

  lemma {:induction false} Pow10Grows(m: nat, n: nat)
    requires m <= n
    ensures Pow10(m) <= Pow10(n)
    decreases n
  {
    if m < n { Pow10Grows(m, n - 1); }
  }

  lemma TenToTwenty()
    ensures Pow10(20) == 100_000_000_000_000_000_000
  {
    assert Pow10(5) == 100_000;
    assert Pow10(10) == 10_000_000_000;
    assert Pow10(15) == 1_000_000_000_000_000;
  }

  /** Numerals of equal length compare as texts as they do as numbers. */
  lemma {:induction false} SameLengthCompare(a: Text, b: Text)
    requires AllDigits(a) && AllDigits(b) && |a| == |b|
    ensures CompareBytes(a, b) == CompareInts(Value(a), Value(b))
  {
    if a != [] {
      var p := Pow10(|a| - 1);
      ValueFront(a);
      ValueFront(b);
      SameLengthCompare(a[1..], b[1..]);
      ValueBelow(a[1..]);
      ValueBelow(b[1..]);
      HeadDecides(a[0] - 48, b[0] - 48, p, Value(a[1..]), Value(b[1..]));
    }
  }

  lemma HeadDecides(d: nat, e: nat, p: nat, x: nat, y: nat)
    requires x < p && y < p
    ensures d < e ==> d * p + x < e * p + y
    ensures d > e ==> d * p + x > e * p + y
  {
    if d < e { assert (d + 1) * p <= e * p; }
    if d > e { assert (e + 1) * p <= d * p; }
  }

  /** The shorter of two canonical numerals is the smaller number. */
  lemma ShorterIsSmaller(a: Text, b: Text)
    requires IsCanonical(a) && IsCanonical(b) && |a| < |b|
    ensures Value(a) < Value(b)
  {
    ValueBelow(a);
    CanonicalAbove(b);
    Pow10Grows(|a|, |b| - 1);
  }

  /** A canonical numeral is the only one for its value. */
  lemma CanonicalIsUnique(a: Text, b: Text)
    requires IsCanonical(a) && IsCanonical(b) && Value(a) == Value(b)
    ensures a == b
  {
    if |a| < |b| { ShorterIsSmaller(a, b); }
    if |b| < |a| { ShorterIsSmaller(b, a); }
    if |a| == |b| {
      SameLengthCompare(a, b);
      CompareBytesOrdered(a, b, b);
    }
  }

  /** strconv.ParseUint(s, 10, 64), with its error as nothing. */
  function ParseUint(s: Text): Option<U64> {
    if IsNumeral(s) && Value(s) <= U64_MAX then Some(Value(s)) else None
  }
}
