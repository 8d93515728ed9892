/** Filling a caller's buffer, from its first byte up or from a known width down.

    A written buffer is always described whole: what the front holds now, and
    that the rest is as it was. */
module Buffers {
  import opened Bytes

  /** The buffer `before` with its first bytes replaced by `done`. */
  function Written(before: Text, done: Text): (after: Text)
    requires |done| <= |before|
    ensures |after| == |before|
  {
    done + before[|done|..]
  }

  lemma WrittenNone(before: Text)
    ensures Written(before, []) == before
  {
  }

  lemma WrittenNext(before: Text, done: Text, c: Byte)
    requires |done| < |before|
    ensures Written(before, done)[|done| := c] == Written(before, done + [c])
  {
  }

  /** One byte stored at the front of what is left. */
  method Put(destination: array<Byte>, ghost before: Text, ghost done: Text, c: Byte, out: nat)
    requires |before| == destination.Length && out == |done| < |before|
    requires destination[..] == Written(before, done)
    modifies destination
    ensures destination[..] == Written(before, done + [c])
  {
    destination[out] := c;
    WrittenNext(before, done, c);
    assert destination[..] == Written(before, done)[out := c];
  }

  /** The buffer `before` after `s`, meant for its front, has been stored from its last byte down to `i`. */
  function WrittenFrom(before: Text, s: Text, i: nat): (after: Text)
    requires i <= |s| <= |before|
    ensures |after| == |before|
  {
    before[..i] + s[i..] + before[|s|..]
  }

  lemma WrittenFromEnds(before: Text, s: Text)
    requires |s| <= |before|
    ensures WrittenFrom(before, s, |s|) == before
    ensures WrittenFrom(before, s, 0) == Written(before, s)
  {
  }

  /** The byte before those already stored. */
  method PutBefore(destination: array<Byte>, ghost before: Text, ghost s: Text, c: Byte, i: nat)
    requires |before| == destination.Length && i < |s| <= |before| && c == s[i]
    requires destination[..] == WrittenFrom(before, s, i + 1)
    modifies destination
    ensures destination[..] == WrittenFrom(before, s, i)
  {
    destination[i] := c;
    assert WrittenFrom(before, s, i + 1)[i := c] == WrittenFrom(before, s, i);
    assert destination[..] == WrittenFrom(before, s, i + 1)[i := c];
  }
}
