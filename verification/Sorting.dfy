/** A stable sort, standing for Go's sort.SliceStable and (where no two keys tie)
    sort.Slice.

    What is relied on is proved, and it leaves no freedom: the stable sorted
    rearrangement of a list is unique. */
module Sorting {
  import opened Orders

  /** A comparison that ranks the values it is used on, perhaps with ties. */
  ghost predicate Ranks<T(!new)>(compare: (T, T) -> int, within: T -> bool) {
    && (forall a, b :: within(a) && within(b) ==> (compare(a, b) <= 0 || compare(b, a) <= 0))
    && (forall a, b :: within(a) && within(b) ==> (compare(a, b) == 0 <==> compare(a, b) <= 0 && compare(b, a) <= 0))
    && (forall a, b, c :: within(a) && within(b) && within(c) && compare(a, b) <= 0 && compare(b, c) <= 0 ==>
          compare(a, c) <= 0)
  }

  function Insert<T>(compare: (T, T) -> int, x: T, s: seq<T>): seq<T> {
    if s == [] || compare(x, s[0]) <= 0 then [x] + s else [s[0]] + Insert(compare, x, s[1..])
  }

  function StableSort<T>(compare: (T, T) -> int, s: seq<T>): seq<T> {
    if s == [] then [] else Insert(compare, s[0], StableSort(compare, s[1..]))
  }

  predicate Sorted<T>(compare: (T, T) -> int, s: seq<T>) {
    forall i, j :: 0 <= i < j < |s| ==> compare(s[i], s[j]) <= 0
  }

  /** The members that tie with `x`, in order. */
  function TiesWith<T>(compare: (T, T) -> int, x: T, s: seq<T>): seq<T> {
    if s == [] then []
    else (if compare(x, s[0]) == 0 then [s[0]] else []) + TiesWith(compare, x, s[1..])
  }

  ghost predicate SameTies<T(!new)>(compare: (T, T) -> int, within: T -> bool, s: seq<T>, t: seq<T>) {
    forall x :: within(x) ==> TiesWith(compare, x, s) == TiesWith(compare, x, t)
  }

  lemma {:induction false} InsertKeepsMembers<T>(compare: (T, T) -> int, x: T, s: seq<T>)
    ensures multiset(Insert(compare, x, s)) == multiset([x] + s)
  {
    if s != [] && compare(x, s[0]) > 0 {
      InsertKeepsMembers(compare, x, s[1..]);
      assert s == [s[0]] + s[1..];
    }
  }

  /** Sorting rearranges. */
  lemma {:induction false} SortPermutes<T>(compare: (T, T) -> int, s: seq<T>)
    ensures multiset(StableSort(compare, s)) == multiset(s)
    ensures |StableSort(compare, s)| == |s|
  {
    if s != [] {
      SortPermutes(compare, s[1..]);
      InsertKeepsMembers(compare, s[0], StableSort(compare, s[1..]));
      assert s == [s[0]] + s[1..];
      assert |multiset(StableSort(compare, s))| == |multiset(s)|;
    }
  }

  lemma AllPermuted<T>(within: T -> bool, s: seq<T>, t: seq<T>)
    requires All(within, s) && multiset(s) == multiset(t)
    ensures All(within, t)
  {
    forall i | 0 <= i < |t| ensures within(t[i]) {
      assert t[i] in multiset(t);
      assert t[i] in s;
    }
  }

  lemma {:induction false} InsertSorts<T(!new)>(compare: (T, T) -> int, within: T -> bool, x: T, s: seq<T>)
    requires Ranks(compare, within) && within(x) && All(within, s) && Sorted(compare, s)
    ensures Sorted(compare, Insert(compare, x, s))
  {
    if s == [] {
    } else if compare(x, s[0]) > 0 {
      var rest := Insert(compare, x, s[1..]);
      InsertSorts(compare, within, x, s[1..]);
      InsertKeepsMembers(compare, x, s[1..]);
      forall y | y in rest ensures compare(s[0], y) <= 0 {
        assert y in multiset([x] + s[1..]);
        LaterOrInserted(compare, within, x, s, y);
      }
      SortedCons(compare, s[0], rest);
    } else {
      forall y | y in s ensures compare(x, y) <= 0 {
        HeadBelow(compare, within, x, s, y);
      }
      SortedCons(compare, x, s);
    }
  }

  lemma SortedCons<T>(compare: (T, T) -> int, x: T, s: seq<T>)
    requires Sorted(compare, s) && forall y :: y in s ==> compare(x, y) <= 0
    ensures Sorted(compare, [x] + s)
  {
  }

  lemma LaterOrInserted<T(!new)>(compare: (T, T) -> int, within: T -> bool, x: T, s: seq<T>, y: T)
    requires Ranks(compare, within) && within(x) && All(within, s) && Sorted(compare, s)
    requires s != [] && compare(x, s[0]) > 0 && y in multiset([x] + s[1..])
    ensures compare(s[0], y) <= 0
  {
    assert within(s[0]);
    if y != x {
      var k :| 0 <= k < |s[1..]| && s[1..][k] == y;
      assert compare(s[0], s[k + 1]) <= 0;
    }
  }

  lemma HeadBelow<T(!new)>(compare: (T, T) -> int, within: T -> bool, x: T, s: seq<T>, y: T)
    requires Ranks(compare, within) && within(x) && All(within, s) && Sorted(compare, s)
    requires s != [] && compare(x, s[0]) <= 0 && y in s
    ensures compare(x, y) <= 0
  {
    var j :| 0 <= j < |s| && s[j] == y;
    assert within(s[0]) && within(s[j]);
    if j > 0 { assert compare(s[0], s[j]) <= 0; }
  }

  lemma {:induction false} SortSorts<T(!new)>(compare: (T, T) -> int, within: T -> bool, s: seq<T>)
    requires Ranks(compare, within) && All(within, s)
    ensures Sorted(compare, StableSort(compare, s)) && All(within, StableSort(compare, s))
  {
    if s != [] {
      SortSorts(compare, within, s[1..]);
      InsertSorts(compare, within, s[0], StableSort(compare, s[1..]));
    }
    SortPermutes(compare, s);
    AllPermuted(within, s, StableSort(compare, s));
  }

  lemma TiesAgree<T(!new)>(compare: (T, T) -> int, within: T -> bool, x: T, y: T, z: T)
    requires Ranks(compare, within) && within(x) && within(y) && within(z)
    ensures compare(x, y) == 0 && compare(x, z) == 0 ==> compare(y, z) <= 0
  {
  }

  lemma {:induction false} InsertKeepsTies<T(!new)>(compare: (T, T) -> int, within: T -> bool, y: T, x: T, s: seq<T>)
    requires Ranks(compare, within) && within(y) && within(x) && All(within, s)
    ensures TiesWith(compare, y, Insert(compare, x, s)) == TiesWith(compare, y, [x] + s)
  {
    var whole := [x] + s;
    assert whole[1..] == s;
    if s != [] && compare(x, s[0]) > 0 {
      InsertKeepsTies(compare, within, y, x, s[1..]);
      assert within(s[0]);
      var rest := Insert(compare, x, s[1..]);
      assert ([s[0]] + rest)[1..] == rest;
      assert ([x] + s[1..])[1..] == s[1..];
      TiesAgree(compare, within, y, x, s[0]);
    }
  }

  /** Sorting keeps the order of ties. */
  lemma {:induction false} SortIsStable<T(!new)>(compare: (T, T) -> int, within: T -> bool, s: seq<T>)
    requires Ranks(compare, within) && All(within, s)
    ensures SameTies(compare, within, s, StableSort(compare, s))
  {
    if s != [] {
      var rest := StableSort(compare, s[1..]);
      SortIsStable(compare, within, s[1..]);
      SortSorts(compare, within, s[1..]);
      assert within(s[0]);
      forall y | within(y) ensures TiesWith(compare, y, s) == TiesWith(compare, y, StableSort(compare, s)) {
        InsertKeepsTies(compare, within, y, s[0], rest);
        assert ([s[0]] + rest)[1..] == rest;
        assert TiesWith(compare, y, s[1..]) == TiesWith(compare, y, rest);
      }
    }
  }

  lemma {:induction false} TieIsMember<T>(compare: (T, T) -> int, x: T, s: seq<T>, y: T)
    requires y in TiesWith(compare, x, s)
    ensures y in s && compare(x, y) == 0
  {
    if y in TiesWith(compare, x, s[1..]) {
      if y !in (if compare(x, s[0]) == 0 then [s[0]] else []) { TieIsMember(compare, x, s[1..], y); }
    }
  }

  /** In a sorted list, the head comes no later than anything the list ties with. */
  lemma HeadIsLeast<T(!new)>(compare: (T, T) -> int, within: T -> bool, s: seq<T>, x: T)
    requires Ranks(compare, within) && within(x) && All(within, s) && Sorted(compare, s)
    requires s != [] && TiesWith(compare, x, s) != []
    ensures compare(s[0], x) <= 0
  {
    var y := TiesWith(compare, x, s)[0];
    TieIsMember(compare, x, s, y);
    var j :| 0 <= j < |s| && s[j] == y;
    assert within(s[0]) && within(s[j]);
    assert compare(s[0], s[j]) <= 0;
  }

  lemma HeadTies<T(!new)>(compare: (T, T) -> int, within: T -> bool, s: seq<T>)
    requires Ranks(compare, within) && All(within, s)
    ensures s != [] ==> within(s[0]) && s[0] in TiesWith(compare, s[0], s)
  {
  }

  lemma TailTies<T>(compare: (T, T) -> int, x: T, s: seq<T>, t: seq<T>)
    requires s != [] && t != [] && s[0] == t[0] && TiesWith(compare, x, s) == TiesWith(compare, x, t)
    ensures TiesWith(compare, x, s[1..]) == TiesWith(compare, x, t[1..])
  {
    var c: seq<T> := if compare(x, s[0]) == 0 then [s[0]] else [];
    TiesCons(compare, x, s, c);
    TiesCons(compare, x, t, c);
  }

  lemma TiesCons<T>(compare: (T, T) -> int, x: T, s: seq<T>, c: seq<T>)
    requires s != [] && c == if compare(x, s[0]) == 0 then [s[0]] else []
    ensures |c| <= |TiesWith(compare, x, s)| && TiesWith(compare, x, s[1..]) == TiesWith(compare, x, s)[|c|..]
  {
    var rest := TiesWith(compare, x, s[1..]);
    assert TiesWith(compare, x, s) == c + rest;
    assert (c + rest)[|c|..] == rest;
  }

  lemma SameHead<T(!new)>(compare: (T, T) -> int, within: T -> bool, s: seq<T>, t: seq<T>)
    requires Ranks(compare, within) && All(within, s) && All(within, t) && s != []
    requires Sorted(compare, s) && Sorted(compare, t) && SameTies(compare, within, s, t)
    ensures t != [] && s[0] == t[0]
  {
    HeadTies(compare, within, s);
    HeadTies(compare, within, t);
    assert TiesWith(compare, s[0], s) == TiesWith(compare, s[0], t);
    assert t != [];
    assert TiesWith(compare, t[0], s) == TiesWith(compare, t[0], t);
    HeadIsLeast(compare, within, s, t[0]);
    HeadIsLeast(compare, within, t, s[0]);
    assert compare(s[0], t[0]) == 0;
    assert TiesWith(compare, s[0], s)[0] == s[0] && TiesWith(compare, s[0], t)[0] == t[0];
  }

  /** Only one list is sorted and keeps the order of ties. */
  lemma {:induction false} StableSortIsUnique<T(!new)>(
      compare: (T, T) -> int, within: T -> bool, s: seq<T>, t: seq<T>)
    requires Ranks(compare, within) && All(within, s) && All(within, t)
    requires Sorted(compare, s) && Sorted(compare, t) && SameTies(compare, within, s, t)
    ensures s == t
  {
    hide TiesWith, Ranks;
    if s != [] {
      SameHead(compare, within, s, t);
      forall x | within(x) ensures TiesWith(compare, x, s[1..]) == TiesWith(compare, x, t[1..]) {
        TailTies(compare, x, s, t);
      }
      StableSortIsUnique(compare, within, s[1..], t[1..]);
      assert s == [s[0]] + s[1..] && t == [t[0]] + t[1..];
    } else if t != [] {
      SameHead(compare, within, t, s);
    }
  }

  predicate Untied<T>(compare: (T, T) -> int, s: seq<T>) {
    forall i, j :: 0 <= i < j < |s| ==> compare(s[i], s[j]) != 0
  }

  lemma TwiceIn<T>(s: seq<T>, i: nat, j: nat)
    requires i < j < |s|
    ensures s[i] == s[j] ==> multiset(s)[s[i]] >= 2
  {
    assert s == s[..j] + s[j..];
    assert s[..j][i] in multiset(s[..j]) && s[j..][0] in multiset(s[j..]);
  }

  lemma OnceIn<T(!new)>(compare: (T, T) -> int, within: T -> bool, s: seq<T>, a: nat)
    requires Ranks(compare, within) && All(within, s) && Untied(compare, s) && a < |s|
    ensures multiset(s)[s[a]] == 1
  {
    assert within(s[a]) && compare(s[a], s[a]) == 0;
    assert s == s[..a] + [s[a]] + s[a + 1..];
    assert s[a] !in s[..a] && s[a] !in s[a + 1..];
  }

  /** Sorting a list without ties leaves it strictly increasing. */
  lemma SortIsStrict<T(!new)>(compare: (T, T) -> int, within: T -> bool, s: seq<T>)
    requires Ranks(compare, within) && All(within, s) && Untied(compare, s)
    ensures var t := StableSort(compare, s);
      forall i, j :: 0 <= i < j < |t| ==> compare(t[i], t[j]) < 0
  {
    hide StableSort;
    var t := StableSort(compare, s);
    SortPermutes(compare, s);
    SortSorts(compare, within, s);
    forall i, j | 0 <= i < j < |t| ensures compare(t[i], t[j]) < 0 {
      PermutedUntied(compare, within, s, t, i, j);
      assert compare(t[i], t[j]) <= 0;
    }
  }

  lemma PermutedUntied<T(!new)>(compare: (T, T) -> int, within: T -> bool, s: seq<T>, t: seq<T>, i: nat, j: nat)
    requires Ranks(compare, within) && All(within, s) && Untied(compare, s)
    requires multiset(s) == multiset(t) && i < j < |t|
    ensures compare(t[i], t[j]) != 0
  {
    assert t[i] in multiset(t) && t[j] in multiset(t);
    var a :| 0 <= a < |s| && s[a] == t[i];
    var b :| 0 <= b < |s| && s[b] == t[j];
    assert within(s[a]) && within(s[b]);
    OnceIn(compare, within, s, a);
    TwiceIn(t, i, j);
    assert a < b ==> compare(s[a], s[b]) != 0;
    assert b < a ==> compare(s[b], s[a]) != 0;
  }

  /** Of two ties, the first stands before the second in the list. */
  lemma {:induction false} TiesInOrder<T>(compare: (T, T) -> int, x: T, s: seq<T>, a: nat, b: nat)
    requires a < b < |TiesWith(compare, x, s)|
    ensures var ties := TiesWith(compare, x, s);
      exists i, j :: 0 <= i < j < |s| && s[i] == ties[a] && s[j] == ties[b]
  {
    var ties := TiesWith(compare, x, s);
    var rest := TiesWith(compare, x, s[1..]);
    if compare(x, s[0]) != 0 {
      TiesInOrder(compare, x, s[1..], a, b);
      var i, j :| 0 <= i < j < |s[1..]| && s[1..][i] == rest[a] && s[1..][j] == rest[b];
      assert s[i + 1] == ties[a] && s[j + 1] == ties[b];
    } else if a > 0 {
      TiesInOrder(compare, x, s[1..], a - 1, b - 1);
      var i, j :| 0 <= i < j < |s[1..]| && s[1..][i] == rest[a - 1] && s[1..][j] == rest[b - 1];
      assert s[i + 1] == ties[a] && s[j + 1] == ties[b];
    } else {
      TieIsMember(compare, x, s[1..], rest[b - 1]);
      var j :| 0 <= j < |s[1..]| && s[1..][j] == rest[b - 1];
      assert s[0] == ties[0] && s[j + 1] == ties[b];
    }
  }

  lemma TwoTied<T>(compare: (T, T) -> int, a: T, b: T)
    requires compare(a, b) == 0
    ensures StableSort(compare, [a, b]) == [a, b]
  {
    assert [a, b][1..] == [b] && [b][1..] == [];
    assert StableSort(compare, [b]) == Insert(compare, b, []) == [b];
  }

  lemma MovedToFront<T>(s: seq<T>, x: T) returns (rest: seq<T>)
    requires x in s
    ensures multiset([x] + rest) == multiset(s)
  {
    var k :| 0 <= k < |s| && s[k] == x;
    rest := s[..k] + s[k + 1..];
    assert s == s[..k] + [x] + s[k + 1..];
  }

  /** Three different members can be brought to the front, in any order. */
  lemma ThreeToFront<T>(s: seq<T>, a: T, b: T, c: T) returns (t: seq<T>)
    requires a in s && b in s && c in s && a != b && b != c && a != c
    ensures multiset(t) == multiset(s) && |t| >= 3 && t[0] == a && t[1] == b && t[2] == c
  {
    var s1 := MovedToFront(s, a);
    assert b in multiset([a] + s1) && c in multiset([a] + s1);
    var s2 := MovedToFront(s1, b);
    assert c in multiset([b] + s2);
    var s3 := MovedToFront(s2, c);
    t := [a, b, c] + s3;
    assert t == [a] + ([b] + ([c] + s3));
  }
}
