/** Cutting byte strings at a separator, as Go's strings.Split and SplitN do.

    Cutting and joining undo each other, so a text and its parts carry the same
    information, and what is true of the parts is true of the text. */
module Texts {
  import opened Bytes

  function IndexOf(s: Text, c: Byte): (i: nat)
    ensures i <= |s|
    ensures i < |s| ==> s[i] == c
    ensures c !in s[..i]
    ensures i < |s| <==> c in s
  {
    if s == [] || s[0] == c then 0 else 1 + IndexOf(s[1..], c)
  }

  /** What comes before the first separator: everything when there is none. */
  function Before(s: Text, c: Byte): Text {
    s[..IndexOf(s, c)]
  }

  function After(s: Text, c: Byte): Text
    requires c in s
  {
    s[IndexOf(s, c) + 1..]
  }

  function Split(s: Text, c: Byte): (parts: seq<Text>)
    ensures |parts| >= 1
    decreases |s|
  {
    if c in s then [Before(s, c)] + Split(After(s, c), c) else [s]
  }

  function Join(parts: seq<Text>, c: Byte): Text
    requires parts != []
  {
    if |parts| == 1 then parts[0] else parts[0] + [c] + Join(parts[1..], c)
  }

  predicate FreeOf(parts: seq<Text>, c: Byte) {
    forall i :: 0 <= i < |parts| ==> c !in parts[i]
  }

  lemma {:induction false} CutAt(head: Text, c: Byte, tail: Text)
    requires c !in head
    ensures c in head + [c] + tail
    ensures Before(head + [c] + tail, c) == head && After(head + [c] + tail, c) == tail
  {
    var s := head + [c] + tail;
    assert s[|head|] == c;
    if head != [] {
      assert s[1..] == head[1..] + [c] + tail;
      CutAt(head[1..], c, tail);
      assert head == [head[0]] + head[1..];
    }
  }

  lemma {:induction false} JoinSplit(s: Text, c: Byte)
    ensures Join(Split(s, c), c) == s && FreeOf(Split(s, c), c)
    decreases |s|
  {
    if c in s {
      JoinSplit(After(s, c), c);
      var parts := Split(s, c);
      assert parts[1..] == Split(After(s, c), c);
      assert s == Before(s, c) + [c] + After(s, c);
    }
  }

  lemma {:induction false} SplitJoin(parts: seq<Text>, c: Byte)
    requires parts != [] && FreeOf(parts, c)
    ensures Split(Join(parts, c), c) == parts
    decreases |parts|
  {
    hide IndexOf;
    if |parts| == 1 {
      assert parts == [parts[0]];
    } else {
      var rest := parts[1..];
      assert FreeOf(rest, c);
      SplitJoin(rest, c);
      CutAt(parts[0], c, Join(rest, c));
      assert Split(Join(parts, c), c) == [parts[0]] + Split(Join(rest, c), c);
      assert parts == [parts[0]] + rest;
    }
  }

  lemma {:induction false} JoinMembers(parts: seq<Text>, c: Byte, b: Byte)
    requires parts != []
    ensures b in Join(parts, c) <==> (b == c && |parts| > 1) || exists i :: 0 <= i < |parts| && b in parts[i]
    decreases |parts|
  {
    if |parts| > 1 {
      var rest := parts[1..];
      JoinMembers(rest, c, b);
      if exists i :: 0 <= i < |parts| && b in parts[i] {
        var i :| 0 <= i < |parts| && b in parts[i];
        assert i > 0 ==> b in rest[i - 1];
      }
      if exists i :: 0 <= i < |rest| && b in rest[i] {
        var i :| 0 <= i < |rest| && b in rest[i];
        assert b in parts[i + 1];
      }
    }
  }
}
