/** Three-way comparisons: -1, 0 or 1, and their extension to sequences.

    A comparison of members that is a total order makes the comparison of
    sequences one, and only equal sequences compare as equal. */
module Orders {
  import opened Bytes

  function CompareInts(a: int, b: int): (r: int)
    ensures r < 0 <==> a < b
    ensures r == 0 <==> a == b
    ensures -1 <= r <= 1
  {
    if a < b then -1 else if a > b then 1 else 0
  }

  /** The first differing pair decides; a proper prefix comes first. */
  function Lexicographic<T>(compare: (T, T) -> int, a: seq<T>, b: seq<T>): int {
    if a == [] then (if b == [] then 0 else -1)
    else if b == [] then 1
    else if compare(a[0], b[0]) != 0 then compare(a[0], b[0])
    else Lexicographic(compare, a[1..], b[1..])
  }

  /** Go's comparison of strings. */
  function CompareBytes(a: Text, b: Text): int {
    Lexicographic((x: Byte, y: Byte) => CompareInts(x, y), a, b)
  }

  ghost predicate Antisymmetric<T(!new)>(compare: (T, T) -> int, within: T -> bool) {
    forall a, b :: within(a) && within(b) ==> compare(a, b) == -compare(b, a)
  }

  ghost predicate Transitive<T(!new)>(compare: (T, T) -> int, within: T -> bool) {
    forall a, b, c :: within(a) && within(b) && within(c) && compare(a, b) <= 0 && compare(b, c) <= 0 ==>
      compare(a, c) <= 0
  }

  ghost predicate ZeroIsEqual<T(!new)>(compare: (T, T) -> int, within: T -> bool) {
    forall a, b :: within(a) && within(b) ==> (compare(a, b) == 0 <==> a == b)
  }

  /** A comparison that orders the values it is used on, and equates none. */
  ghost predicate IsTotalOrder<T(!new)>(compare: (T, T) -> int, within: T -> bool) {
    Antisymmetric(compare, within) && Transitive(compare, within) && ZeroIsEqual(compare, within)
  }

  predicate All<T>(within: T -> bool, s: seq<T>) {
    forall i :: 0 <= i < |s| ==> within(s[i])
  }

  lemma {:induction false} LexicographicAntisymmetric<T(!new)>(
      compare: (T, T) -> int, within: T -> bool, a: seq<T>, b: seq<T>)
    requires IsTotalOrder(compare, within) && All(within, a) && All(within, b)
    ensures Lexicographic(compare, a, b) == -Lexicographic(compare, b, a)
    ensures Lexicographic(compare, a, b) == 0 <==> a == b
  {
    if a != [] && b != [] {
      assert within(a[0]) && within(b[0]);
      LexicographicAntisymmetric(compare, within, a[1..], b[1..]);
      assert a == [a[0]] + a[1..] && b == [b[0]] + b[1..];
    }
  }

  lemma {:induction false} LexicographicTransitive<T(!new)>(
      compare: (T, T) -> int, within: T -> bool, a: seq<T>, b: seq<T>, c: seq<T>)
    requires IsTotalOrder(compare, within) && All(within, a) && All(within, b) && All(within, c)
    requires Lexicographic(compare, a, b) <= 0 && Lexicographic(compare, b, c) <= 0
    ensures Lexicographic(compare, a, c) <= 0
  {
    if a != [] && b != [] && c != [] {
      assert within(a[0]) && within(b[0]) && within(c[0]);
      assert compare(a[0], b[0]) <= 0 && compare(b[0], c[0]) <= 0;
      assert compare(a[0], c[0]) <= 0;
      if compare(a[0], c[0]) == 0 {
        assert compare(b[0], a[0]) <= 0;
        assert compare(a[0], b[0]) == 0;
        LexicographicTransitive(compare, within, a[1..], b[1..], c[1..]);
      }
    }
  }

  lemma BytesOrdered()
    ensures IsTotalOrder((x: Byte, y: Byte) => CompareInts(x, y), (x: Byte) => true)
  {
  }

  /** Byte strings are totally ordered. */
  lemma CompareBytesOrdered(a: Text, b: Text, c: Text)
    ensures CompareBytes(a, b) == -CompareBytes(b, a)
    ensures CompareBytes(a, b) == 0 <==> a == b
    ensures CompareBytes(a, b) <= 0 && CompareBytes(b, c) <= 0 ==> CompareBytes(a, c) <= 0
  {
    var compare, within := (x: Byte, y: Byte) => CompareInts(x, y), (x: Byte) => true;
    BytesOrdered();
    LexicographicAntisymmetric(compare, within, a, b);
    if CompareBytes(a, b) <= 0 && CompareBytes(b, c) <= 0 {
      LexicographicTransitive(compare, within, a, b, c);
    }
  }
}
