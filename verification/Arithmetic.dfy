/** Multiplication, division and remainder of natural numbers.

    Facts about products stand here, one at a time, so that the proofs about
    distribution and rate limits need only linear reasoning besides. */
module Arithmetic {

  lemma MulMonotone(a: int, b: int, d: nat)
    requires a <= b
    ensures a * d <= b * d
  {
  }

  lemma DivMod(x: nat, d: nat)
    requires d > 0
    ensures x == x / d * d + x % d && 0 <= x % d < d && 0 <= x / d <= x
  {
    assert x == d * (x / d) + x % d;
    if x / d >= 0 { MulMonotone(1, d, x / d); }
  }

  function Quotient(x: nat, d: nat): (q: nat)
    requires d > 0
    ensures q <= x
  {
    DivMod(x, d);
    x / d
  }

  lemma QuotientBounds(x: nat, d: nat)
    requires d > 0
    ensures Quotient(x, d) * d <= x < (Quotient(x, d) + 1) * d
  {
    DivMod(x, d);
    assert (x / d + 1) * d == x / d * d + d;
  }

  lemma DivIs(x: nat, d: nat, q: nat)
    requires d > 0
    ensures x / d == q <==> q * d <= x < (q + 1) * d
  {
    var p := x / d;
    QuotientBounds(x, d);
    if p < q { MulMonotone(p + 1, q, d); }
    if q < p { MulMonotone(q + 1, p, d); }
  }
}
