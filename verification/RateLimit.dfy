/** noqeri.rate_limit: the token bucket, in 64-bit arithmetic that wraps around. */
module RateLimit {
  import opened Bytes
  import opened Arithmetic

  /** The 64-bit result of an operation whose exact result is `n`. */
  function WrapI64(n: int): (w: I64)
    ensures I64_MIN <= n <= I64_MAX ==> w == n
  {
    (n - I64_MIN) % 0x1_0000_0000_0000_0000 + I64_MIN
  }

  function Refill(tokens: I64, capacity: I64, elapsed: I64, rate: I64): I64 {
    if capacity <= 0 || rate < 0 || elapsed < 0 then 0
    else
      var existing := if tokens < 0 then 0 else tokens;
      if existing >= capacity then capacity
      else
        var room := capacity - existing;
        if rate == 0 then existing
        else if elapsed >= WrapI64(Quotient(room, rate) + 1) then capacity
        else
          var refill := WrapI64(elapsed * rate);
          if refill >= room then capacity else WrapI64(existing + refill)
  }

  function Consume(tokens: I64, cost: I64): I64 {
    if cost < 0 || tokens < 0 || cost > tokens then -1 else tokens - cost
  }

  function ConservativeDelay(missing: I64, perSecond: I64): I64 {
    if missing <= 0 then 0
    else if perSecond <= 0 then -1
    else
      var result := Quotient(missing, perSecond);
      if missing % perSecond != 0 then WrapI64(result + 1) else result
  }

  // ---------------------------------------------------------------- refill

  function Min(a: int, b: int): int {
    if a <= b then a else b
  }

  /** What a refill is meant to be, in unbounded arithmetic. */
  function Saturated(tokens: int, capacity: int, elapsed: int, rate: int): int {
    Min(capacity, (if tokens < 0 then 0 else tokens) + elapsed * rate)
  }

  /** The configuration whose headroom test overflows. */
  predicate IsSafe(capacity: I64, rate: I64) {
    !(capacity == I64_MAX && rate == 1)
  }

  lemma SaturatedRefill(room: nat, elapsed: nat, rate: nat)
    requires rate > 0
    ensures elapsed >= Quotient(room, rate) + 1 ==> elapsed * rate > room
    ensures elapsed < Quotient(room, rate) + 1 ==> elapsed * rate <= room
  {
    var q := Quotient(room, rate);
    QuotientBounds(room, rate);
    if elapsed >= q + 1 { MulMonotone(q + 1, elapsed, rate); } else { MulMonotone(elapsed, q, rate); }
  }

  lemma OnlyRateOneFills(room: I64, rate: I64)
    requires room > 0 && rate > 0
    ensures Quotient(room, rate) + 1 > I64_MAX <==> room == I64_MAX && rate == 1
  {
    var q := Quotient(room, rate);
    QuotientBounds(room, rate);
    if rate >= 2 { MulMonotone(2, rate, q); } else { assert q * 1 == q; }
  }

  /** Refilling is exact saturating arithmetic for all arguments but one family: full-range
      capacity, an empty bucket, rate one and a wait too short to fill it. */
  lemma RefillIsSaturatedIff(tokens: I64, capacity: I64, elapsed: I64, rate: I64)
    requires capacity > 0 && elapsed >= 0 && rate >= 0
    ensures Refill(tokens, capacity, elapsed, rate) == Saturated(tokens, capacity, elapsed, rate) <==>
      !(capacity == I64_MAX && tokens <= 0 && rate == 1 && elapsed < capacity)
  {
    var existing := if tokens < 0 then 0 else tokens;
    var gain := elapsed * rate;
    assert gain >= 0;
    if existing < capacity && rate > 0 {
      var room := capacity - existing;
      OnlyRateOneFills(room, rate);
      SaturatedRefill(room, elapsed, rate);
    }
  }

  /** For all arguments, also those out of range and those that overflow, the balance is
      within the capacity, and a configuration that makes no sense yields nothing. */
  lemma RefillStaysInBucket(tokens: I64, capacity: I64, elapsed: I64, rate: I64)
    ensures 0 <= Refill(tokens, capacity, elapsed, rate) <= if capacity <= 0 then 0 else capacity
    ensures rate < 0 || elapsed < 0 ==> Refill(tokens, capacity, elapsed, rate) == 0
  {
    if capacity > 0 && rate >= 0 && elapsed >= 0 {
      RefillIsSaturatedIff(tokens, capacity, elapsed, rate);
      assert elapsed * rate >= 0;
    }
  }

  lemma SaturatedTwice(tokens: int, capacity: nat, first: nat, second: nat, rate: nat)
    ensures Saturated(Saturated(tokens, capacity, first, rate), capacity, second, rate) ==
      Saturated(tokens, capacity, first + second, rate)
  {
    var gain, more := first * rate, second * rate;
    assert (first + second) * rate == gain + more;
    assert gain >= 0 && more >= 0;
  }

  /** In the overflow corner any wait fills the bucket; with no capacity, or a rate or a
      wait below zero, nothing is ever in it. */
  lemma RefillAtCorner(capacity: I64, tokens: I64, elapsed: I64, rate: I64)
    ensures capacity == I64_MAX && tokens <= 0 && rate == 1 && elapsed >= 0 ==>
      Refill(tokens, capacity, elapsed, rate) == capacity
    ensures capacity > 0 && rate >= 0 && elapsed >= 0 && tokens >= capacity ==>
      Refill(tokens, capacity, elapsed, rate) == capacity
    ensures capacity <= 0 || rate < 0 || elapsed < 0 ==> Refill(tokens, capacity, elapsed, rate) == 0
  {
  }

  /** Waiting twice is waiting for the sum, for every bucket and every rate. */
  lemma RefillIsAdditive(tokens: I64, capacity: I64, first: I64, second: I64, rate: I64)
    requires first >= 0 && second >= 0 && first + second <= I64_MAX
    ensures Refill(Refill(tokens, capacity, first, rate), capacity, second, rate) ==
      Refill(tokens, capacity, first + second, rate)
  {
    hide Refill, WrapI64, Saturated;
    var between := Refill(tokens, capacity, first, rate);
    RefillAtCorner(capacity, tokens, first, rate);
    RefillAtCorner(capacity, between, second, rate);
    RefillAtCorner(capacity, tokens, first + second, rate);
    if capacity > 0 && rate >= 0 && !(capacity == I64_MAX && tokens <= 0 && rate == 1) {
      RefillIsSaturatedIff(tokens, capacity, first, rate);
      SaturatedIsPositive(tokens, capacity, first, rate);
      RefillIsSaturatedIff(between, capacity, second, rate);
      RefillIsSaturatedIff(tokens, capacity, first + second, rate);
      SaturatedTwice(tokens, capacity, first, second, rate);
    }
  }

  lemma SaturatedIsPositive(tokens: int, capacity: nat, elapsed: nat, rate: nat)
    requires capacity > 0
    ensures tokens > 0 ==> Saturated(tokens, capacity, elapsed, rate) > 0
  {
    assert elapsed * rate >= 0;
  }

  // ------------------------------------------------------------------- runs

  /** What happens to a bucket: time passes, or a cost is asked for. */
  datatype Event = Tick(elapsed: I64) | Spend(cost: I64)

  /** The caller keeps the balance that Consume returns, and the old one when it refuses. */
  function After(tokens: I64, capacity: I64, rate: I64, e: Event): I64 {
    match e
    case Tick(elapsed) => Refill(tokens, capacity, elapsed, rate)
    case Spend(cost) => if Consume(tokens, cost) < 0 then tokens else Consume(tokens, cost)
  }

  function Cost(tokens: I64, e: Event): nat {
    if e.Spend? && Consume(tokens, e.cost) >= 0 then e.cost else 0
  }

  function Balance(tokens: I64, capacity: I64, rate: I64, run: seq<Event>): I64
    decreases |run|
  {
    if run == [] then tokens else Balance(After(tokens, capacity, rate, run[0]), capacity, rate, run[1..])
  }

  function Admitted(tokens: I64, capacity: I64, rate: I64, run: seq<Event>): nat
    decreases |run|
  {
    if run == [] then 0
    else Cost(tokens, run[0]) + Admitted(After(tokens, capacity, rate, run[0]), capacity, rate, run[1..])
  }

  function Elapsed(run: seq<Event>): int {
    if run == [] then 0 else Passed(run[0]) + Elapsed(run[1..])
  }

  predicate ClockIsMonotonic(run: seq<Event>) {
    forall i :: 0 <= i < |run| && run[i].Tick? ==> run[i].elapsed >= 0
  }

  lemma {:induction false} BalanceIsConserved(tokens: I64, capacity: I64, rate: I64, run: seq<Event>)
    requires 0 <= tokens <= capacity && capacity > 0 && rate >= 0 && IsSafe(capacity, rate) && ClockIsMonotonic(run)
    ensures 0 <= Balance(tokens, capacity, rate, run) <= capacity
    ensures Admitted(tokens, capacity, rate, run) + Balance(tokens, capacity, rate, run) <= tokens + Elapsed(run) * rate
    decreases |run|
  {
    if run != [] {
      hide After, Cost;
      var e, rest := run[0], run[1..];
      EventConserves(tokens, capacity, rate, e);
      BalanceIsConserved(After(tokens, capacity, rate, e), capacity, rate, rest);
      SumScaled(Passed(e), Elapsed(rest), rate);
    }
  }

  function Passed(e: Event): int {
    if e.Tick? then e.elapsed else 0
  }

  /** One event neither makes nor loses tokens: a cost that is covered is admitted and
      taken off exactly, and what a wait adds is no more than what trickled in. */
  lemma EventConserves(tokens: I64, capacity: I64, rate: I64, e: Event)
    requires 0 <= tokens <= capacity && capacity > 0 && rate >= 0 && IsSafe(capacity, rate) && Passed(e) >= 0
    ensures 0 <= After(tokens, capacity, rate, e) <= capacity
    ensures Cost(tokens, e) + After(tokens, capacity, rate, e) <= tokens + Passed(e) * rate
    ensures e.Spend? ==> Cost(tokens, e) + After(tokens, capacity, rate, e) == tokens
    ensures e.Spend? && 0 <= e.cost <= tokens ==> Cost(tokens, e) == e.cost
  {
    hide Refill;
    if e.Tick? {
      RefillIsSaturatedIff(tokens, capacity, e.elapsed, rate);
      assert e.elapsed * rate >= 0;
    }
  }

  lemma SumScaled(a: int, b: int, rate: int)
    ensures (a + b) * rate == a * rate + b * rate
  {
  }

  /** Over every contiguous stretch of every run the balance stays between nothing and
      the capacity, and no more is admitted than a full bucket and what trickled in. */
  lemma StretchIsBounded(tokens: I64, capacity: I64, rate: I64, run: seq<Event>, i: nat, j: nat)
    requires 0 <= tokens <= capacity && capacity > 0 && rate >= 0 && IsSafe(capacity, rate) && ClockIsMonotonic(run)
    requires i <= j <= |run|
    ensures var start := Balance(tokens, capacity, rate, run[..i]);
      && 0 <= start <= capacity && 0 <= Balance(start, capacity, rate, run[i..j]) <= capacity
      && Admitted(start, capacity, rate, run[i..j]) <= capacity + Elapsed(run[i..j]) * rate
  {
    BalanceIsConserved(tokens, capacity, rate, run[..i]);
    BalanceIsConserved(Balance(tokens, capacity, rate, run[..i]), capacity, rate, run[i..j]);
  }

  ghost predicate Bounded(capacity: I64, rate: I64) {
    forall tokens: I64, run :: 0 <= tokens <= capacity && ClockIsMonotonic(run) ==>
      Admitted(tokens, capacity, rate, run) <= capacity + Elapsed(run) * rate
  }

  /** A configuration bounds what every run admits exactly when its headroom test does not overflow. */
  lemma BoundedIffSafe(capacity: I64, rate: I64)
    requires capacity > 0 && rate >= 0
    ensures Bounded(capacity, rate) <==> IsSafe(capacity, rate)
  {
    if IsSafe(capacity, rate) {
      forall tokens: I64, run | 0 <= tokens <= capacity && ClockIsMonotonic(run)
        ensures Admitted(tokens, capacity, rate, run) <= capacity + Elapsed(run) * rate
      {
        BalanceIsConserved(tokens, capacity, rate, run);
      }
    } else {
      var spend: Event := Spend(I64_MAX);
      var wait: Event := Tick(0);
      var two, three := [wait, spend], [spend, wait, spend];
      assert [spend][1..] == [] && two[1..] == [spend] && three[1..] == two;
      assert Refill(0, I64_MAX, 0, 1) == I64_MAX;
      assert Admitted(I64_MAX, I64_MAX, 1, [spend]) == I64_MAX;
      assert Admitted(0, I64_MAX, 1, two) == I64_MAX;
      assert Admitted(I64_MAX, I64_MAX, 1, three) == I64_MAX + I64_MAX;
      assert Elapsed([spend]) == 0;
      assert Elapsed(two) == wait.elapsed + Elapsed(two[1..]) == 0;
      assert Elapsed(three) == 0;
    }
  }

  // ------------------------------------------------------------------ delay

  /** For all arguments: -1 exactly when no wait brings in what is missing, and otherwise
      the least wait that does, which is none when nothing is missing. */
  lemma DelayAnswers(missing: I64, perSecond: I64)
    ensures var d := ConservativeDelay(missing, perSecond);
      && (d == -1 <==> forall wait: nat :: wait * perSecond < missing)
      && (d != -1 ==> d >= 0 && d * perSecond >= missing && forall wait: nat :: wait < d ==> wait * perSecond < missing)
  {
    hide ConservativeDelay;
    DelayAtEdges(missing, perSecond);
    if missing <= 0 {
      assert 0 * perSecond >= missing;
    } else if perSecond <= 0 {
      forall wait: nat ensures wait * perSecond < missing { MulMonotone(perSecond, 0, wait); }
    } else {
      var d: nat := ConservativeDelay(missing, perSecond);
      DelayIsLeast(missing, perSecond, d);
      forall wait: nat | wait < d ensures wait * perSecond < missing { DelayIsLeast(missing, perSecond, wait); }
    }
  }

  lemma DelayAtEdges(missing: I64, perSecond: I64)
    ensures missing <= 0 ==> ConservativeDelay(missing, perSecond) == 0
    ensures missing > 0 && perSecond <= 0 ==> ConservativeDelay(missing, perSecond) == -1
    ensures missing > 0 && perSecond > 0 ==> ConservativeDelay(missing, perSecond) > 0
  {
    if missing > 0 && perSecond > 0 { DelayIsLeast(missing, perSecond, 0); }
  }

  /** A cost is refused exactly when it is below nothing or above the balance. */
  lemma ConsumeAnswers(tokens: I64, cost: I64)
    ensures var left := Consume(tokens, cost);
      && (left == -1 <==> !(0 <= cost <= tokens))
      && (left != -1 ==> left >= 0 && left + cost == tokens)
  {
  }

  /** The delay is the least whole number of seconds that brings in what is missing. */
  lemma DelayIsLeast(missing: I64, perSecond: I64, wait: nat)
    requires missing > 0 && perSecond > 0
    ensures ConservativeDelay(missing, perSecond) > 0
    ensures wait * perSecond >= missing <==> wait >= ConservativeDelay(missing, perSecond)
  {
    var q := Quotient(missing, perSecond);
    QuotientBounds(missing, perSecond);
    var d := ConservativeDelay(missing, perSecond);
    assert missing == perSecond * q + missing % perSecond;
    assert d == q || d == q + 1;
    assert (d - 1) * perSecond < missing <= d * perSecond by {
      assert (q + 1) * perSecond == q * perSecond + perSecond;
      assert (q - 1) * perSecond == q * perSecond - perSecond;
    }
    if wait >= d { MulMonotone(d, wait, perSecond); } else { MulMonotone(wait, d - 1, perSecond); }
  }

  /** A refused cost that fits the bucket is admitted after exactly the advised wait, and no
      sooner, for all waits, exactly when the bucket is not in the overflow corner; there
      it is admitted at once. */
  lemma DelayAdmits(tokens: I64, capacity: I64, rate: I64, cost: I64)
    requires 0 <= tokens < cost <= capacity && rate > 0
    ensures Consume(tokens, cost) == -1
    ensures (forall wait: I64 :: wait >= 0 ==> WaitIsRight(tokens, capacity, rate, cost, wait)) <==>
      !(capacity == I64_MAX && rate == 1 && tokens == 0)
    ensures capacity == I64_MAX && rate == 1 && tokens == 0 ==>
      Consume(Refill(tokens, capacity, 0, rate), cost) >= 0
  {
    hide Refill, ConservativeDelay;
    RefillAtCorner(capacity, tokens, 0, rate);
    DelayIsLeast(cost - tokens, rate, 0);
    if !(capacity == I64_MAX && rate == 1 && tokens == 0) {
      forall wait: I64 | wait >= 0 ensures WaitIsRight(tokens, capacity, rate, cost, wait) {
        RefillIsSaturatedIff(tokens, capacity, wait, rate);
        DelayIsLeast(cost - tokens, rate, wait);
        assert wait * rate >= 0;
      }
    } else {
      assert !WaitIsRight(tokens, capacity, rate, cost, 0);
    }
  }

  /** The cost is admitted after this wait exactly when it is at least the advised one. */
  predicate WaitIsRight(tokens: I64, capacity: I64, rate: I64, cost: I64, wait: I64)
    requires 0 <= tokens <= cost
  {
    Consume(Refill(tokens, capacity, wait, rate), cost) >= 0 <==> wait >= ConservativeDelay(cost - tokens, rate)
  }
}
