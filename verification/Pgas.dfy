/** noqeri.pgas: block and cyclic distribution of a global index range over ranks.

    Each operation is written with the wrap-around of its 64-bit type.  That none of
    it happens, with one harmless exception, is proved; after that everything is
    about blocks of an unbounded range. */
module Pgas {
  import opened Bytes
  import opened Arithmetic

  const TWO64: int := 0x1_0000_0000_0000_0000

  function Wrap(n: int): (u: U64) {
    n % TWO64
  }

  /** `as isize`: the same 64 bits read as two's complement. */
  function AsIsize(u: U64): (i: I64)
    ensures i == u || i == u - TWO64
  {
    if u <= I64_MAX then u else u - TWO64
  }

  lemma SeveralAreMore(a: nat, d: nat)
    ensures a >= 2 ==> a * d >= d + d
  {
    if a >= 2 { MulMonotone(2, a, d); }
  }

  predicate RankValid(rank: U64, ranks: U64) {
    ranks > 0 && rank < ranks
  }

  function BlockSize(total: U64, ranks: U64): U64 {
    if ranks == 0 then 0
    else if total % ranks != 0 then Wrap(total / ranks + 1)
    else total / ranks
  }

  function BlockStart(total: U64, ranks: U64, rank: U64): U64 {
    if !RankValid(rank, ranks) then total
    else
      var take := if rank > total % ranks then total % ranks else rank;
      Wrap(Wrap(total / ranks * rank) + take)
  }

  function BlockLength(total: U64, ranks: U64, rank: U64): U64 {
    if !RankValid(rank, ranks) then 0
    else if rank < total % ranks then Wrap(total / ranks + 1)
    else total / ranks
  }

  function BlockOwner(total: U64, ranks: U64, global: U64): I64 {
    if ranks == 0 || global >= total then -1
    else
      var wide: U64, base: U64 := total % ranks, Quotient(total, ranks);
      var width := Wrap(base + 1);
      var boundary := Wrap(wide * width);
      if global < boundary then
        assert width == 0 ==> boundary == 0;
        AsIsize(Quotient(global, width))
      else if base == 0 then -1
      else AsIsize(Wrap(wide + Quotient(global - boundary, base)))
  }

  function CyclicOwner(global: U64, ranks: U64): I64 {
    if ranks == 0 then -1 else AsIsize(global % ranks)
  }

  function CyclicLocalIndex(global: U64, ranks: U64): U64 {
    if ranks == 0 then 0 else Quotient(global, ranks)
  }

  function LocalOffset(total: U64, ranks: U64, rank: U64, global: U64): I64 {
    if BlockOwner(total, ranks, global) != AsIsize(rank) then -1
    else AsIsize(Wrap(global - BlockStart(total, ranks, rank)))
  }

  // ------------------------------------------------------------------ blocks

  /** The start of block `rank`, in unbounded arithmetic, for any rank up to `ranks`. */
  function Start(total: nat, ranks: nat, rank: nat): nat
    requires ranks > 0
  {
    total / ranks * rank + if rank > total % ranks then total % ranks else rank
  }

  function Length(total: nat, ranks: nat, rank: nat): nat
    requires ranks > 0
  {
    total / ranks + if rank < total % ranks then 1 else 0
  }

  lemma StartStep(total: nat, ranks: nat, rank: nat)
    requires ranks > 0
    ensures Start(total, ranks, rank + 1) == Start(total, ranks, rank) + Length(total, ranks, rank)
  {
    assert total / ranks * (rank + 1) == total / ranks * rank + total / ranks;
  }

  lemma {:induction false} StartMonotone(total: nat, ranks: nat, a: nat, b: nat)
    requires ranks > 0 && a <= b
    ensures Start(total, ranks, a) <= Start(total, ranks, b)
    decreases b
  {
    if a < b {
      StartMonotone(total, ranks, a, b - 1);
      StartStep(total, ranks, b - 1);
    }
  }

  lemma StartEnds(total: nat, ranks: nat)
    requires ranks > 0
    ensures Start(total, ranks, 0) == 0 && Start(total, ranks, ranks) == total
  {
    DivMod(total, ranks);
  }

  /** Nothing wraps in the computation of a block: the 64-bit results are the
      unbounded ones and none exceeds the total. */
  lemma BlocksDoNotWrap(total: U64, ranks: U64, rank: U64)
    requires RankValid(rank, ranks)
    ensures BlockStart(total, ranks, rank) == Start(total, ranks, rank)
    ensures BlockLength(total, ranks, rank) == Length(total, ranks, rank)
    ensures Start(total, ranks, rank) + Length(total, ranks, rank) <= total
    ensures BlockSize(total, ranks) == Length(total, ranks, 0) <= total
  {
    StartFits(total, ranks, rank);
    StartFits(total, ranks, 0);
    DivMod(total, ranks);
    var first := total / ranks * rank;
    assert Wrap(first) == first && Wrap(Start(total, ranks, rank)) == Start(total, ranks, rank);
  }

  lemma StartFits(total: nat, ranks: nat, rank: nat)
    requires rank < ranks
    ensures 0 <= total / ranks * rank <= Start(total, ranks, rank)
    ensures Start(total, ranks, rank) + Length(total, ranks, rank) <= total
    ensures Length(total, ranks, 0) == total / ranks + if total % ranks != 0 then 1 else 0
  {
    hide Start, Length;
    StartStep(total, ranks, rank);
    StartMonotone(total, ranks, rank + 1, ranks);
    StartEnds(total, ranks);
    DivMod(total, ranks);
    FirstTermFits(total, ranks, rank);
    FirstLength(total, ranks);
  }

  lemma FirstLength(total: nat, ranks: nat)
    requires ranks > 0
    ensures Length(total, ranks, 0) == total / ranks + if total % ranks != 0 then 1 else 0
  {
    DivMod(total, ranks);
  }

  lemma FirstTermFits(total: nat, ranks: nat, rank: nat)
    requires ranks > 0
    ensures 0 <= total / ranks * rank <= Start(total, ranks, rank)
  {
    DivMod(total, ranks);
  }

  /** Block follows block: each starts where the one before ends, the first at 0 and the last ends at the total. */
  lemma BlocksTile(total: U64, ranks: U64, rank: U64)
    requires RankValid(rank, ranks)
    ensures BlockStart(total, ranks, 0) == 0
    ensures BlockStart(total, ranks, rank) + BlockLength(total, ranks, rank) ==
      if rank + 1 < ranks then BlockStart(total, ranks, rank + 1) else total
  {
    hide BlockStart, BlockLength, Start, Length;
    BlocksDoNotWrap(total, ranks, rank);
    BlocksDoNotWrap(total, ranks, 0);
    StartStep(total, ranks, rank);
    StartEnds(total, ranks);
    if rank + 1 < ranks { BlocksDoNotWrap(total, ranks, rank + 1); }
  }

  function SumOfLengths(total: U64, ranks: U64, n: nat): nat
    requires n <= ranks
  {
    if n == 0 then 0 else SumOfLengths(total, ranks, n - 1) + BlockLength(total, ranks, n - 1)
  }

  lemma {:induction false} LengthsAddUp(total: U64, ranks: U64, n: nat)
    requires 0 < ranks && n <= ranks
    ensures SumOfLengths(total, ranks, n) == Start(total, ranks, n)
  {
    if n == 0 {
      StartEnds(total, ranks);
    } else {
      LengthsAddUp(total, ranks, n - 1);
      BlocksDoNotWrap(total, ranks, n - 1);
      StartStep(total, ranks, n - 1);
    }
  }

  /** The lengths add up to the total, differ by at most one, and the block size is their maximum. */
  lemma BlocksAreBalanced(total: U64, ranks: U64, r: U64, s: U64)
    requires RankValid(r, ranks) && RankValid(s, ranks)
    ensures SumOfLengths(total, ranks, ranks) == total
    ensures BlockLength(total, ranks, r) - BlockLength(total, ranks, s) <= 1
    ensures BlockLength(total, ranks, r) <= BlockSize(total, ranks) == BlockLength(total, ranks, 0)
  {
    LengthsAddUp(total, ranks, ranks);
    StartEnds(total, ranks);
    BlocksDoNotWrap(total, ranks, r);
    BlocksDoNotWrap(total, ranks, s);
    BlocksDoNotWrap(total, ranks, 0);
  }

  // ------------------------------------------------------------------- owner

  predicate InBlock(total: nat, ranks: nat, rank: nat, global: nat)
    requires ranks > 0
  {
    Start(total, ranks, rank) <= global < Start(total, ranks, rank) + Length(total, ranks, rank)
  }

  /** The owner in unbounded arithmetic. */
  function Owner(total: nat, ranks: nat, global: nat): int
    requires ranks > 0
  {
    var wide, base := total % ranks, total / ranks;
    var boundary := wide * (base + 1);
    if global < boundary then global / (base + 1)
    else if base == 0 then -1
    else wide + (global - boundary) / base
  }

  lemma WideStart(total: nat, ranks: nat, rank: nat)
    requires ranks > 0
    ensures var wide, w := total % ranks, total / ranks + 1;
      && (rank < wide ==> Start(total, ranks, rank) == rank * w && (rank + 1) * w == rank * w + w)
      && (rank >= wide ==> Start(total, ranks, rank) >= wide * w)
  {
    var wide, base := total % ranks, total / ranks;
    if rank < wide {
      assert base * rank + rank == rank * (base + 1);
    } else {
      MulMonotone(wide, rank, base);
      assert base * wide + wide == wide * (base + 1);
    }
  }

  lemma OwnerInWide(total: nat, ranks: nat, global: nat, rank: nat)
    requires ranks > 0 && global < total % ranks * (total / ranks + 1)
    ensures Owner(total, ranks, global) == rank <==> InBlock(total, ranks, rank, global)
    ensures Owner(total, ranks, global) < total % ranks
  {
    var wide, w := total % ranks, total / ranks + 1;
    DivIs(global, w, rank);
    DivIs(global, w, global / w);
    if global / w >= wide { MulMonotone(wide, global / w, w); }
    WideStart(total, ranks, rank);
  }

  lemma NarrowStart(total: nat, ranks: nat, rank: nat)
    requires ranks > 0 && rank >= total % ranks
    ensures var wide, base := total % ranks, total / ranks;
      && Start(total, ranks, rank) == wide * (base + 1) + (rank - wide) * base
      && (rank - wide + 1) * base == (rank - wide) * base + base
  {
    var wide, base := total % ranks, total / ranks;
    assert base * rank + wide == wide * (base + 1) + (rank - wide) * base;
  }

  lemma WideEnd(total: nat, ranks: nat, rank: nat)
    requires ranks > 0 && rank < total % ranks
    ensures var wide, base := total % ranks, total / ranks;
      Start(total, ranks, rank) + base + 1 <= wide * (base + 1)
  {
    var wide, base := total % ranks, total / ranks;
    MulMonotone(rank + 1, wide, base + 1);
    assert base * rank + rank + base + 1 == (rank + 1) * (base + 1);
  }

  lemma OwnerInNarrow(total: nat, ranks: nat, global: nat, rank: nat)
    requires ranks > 0 && global >= total % ranks * (total / ranks + 1) && total / ranks > 0
    ensures Owner(total, ranks, global) == rank <==> InBlock(total, ranks, rank, global)
  {
    var wide, base := total % ranks, total / ranks;
    var boundary := wide * (base + 1);
    var past := global - boundary;
    DivMod(past, base);
    if rank >= wide {
      DivIs(past, base, rank - wide);
      NarrowStart(total, ranks, rank);
    } else {
      assert Owner(total, ranks, global) >= wide;
      WideEnd(total, ranks, rank);
    }
  }

  lemma {:induction false} EveryGlobalHasABlock(total: nat, ranks: nat, global: nat, n: nat) returns (rank: nat)
    requires ranks > 0 && global < Start(total, ranks, n)
    requires n > 0
    ensures rank < n && InBlock(total, ranks, rank, global)
    decreases n
  {
    StartStep(total, ranks, n - 1);
    StartEnds(total, ranks);
    if global >= Start(total, ranks, n - 1) { rank := n - 1; }
    else { rank := EveryGlobalHasABlock(total, ranks, global, n - 1); }
  }

  lemma OwnerIff(total: nat, ranks: nat, global: nat, rank: nat)
    requires ranks > 0 && global < total
    ensures Owner(total, ranks, global) == rank <==> InBlock(total, ranks, rank, global)
    ensures 0 <= Owner(total, ranks, global) < ranks
  {
    DivMod(total, ranks);
    StartEnds(total, ranks);
    var home := EveryGlobalHasABlock(total, ranks, global, ranks);
    if global < total % ranks * (total / ranks + 1) {
      OwnerInWide(total, ranks, global, rank);
      OwnerInWide(total, ranks, global, home);
    } else {
      OwnerInNarrow(total, ranks, global, rank);
      OwnerInNarrow(total, ranks, global, home);
    }
  }

  lemma BoundaryWithinTotal(total: nat, ranks: nat)
    requires ranks > 0
    ensures total % ranks * (total / ranks + 1) <= total
  {
    var wide, base := total % ranks, total / ranks;
    DivMod(total, ranks);
    MulMonotone(wide, ranks, base);
    assert wide * (base + 1) == wide * base + wide;
  }

  lemma BaseBelowTotal(total: U64, ranks: U64)
    requires ranks > 0 && total / ranks == U64_MAX
    ensures ranks == 1 && total % ranks == 0
  {
    DivMod(total, ranks);
    SeveralAreMore(ranks, total / ranks);
  }

  lemma WrapKeeps(n: int)
    requires 0 <= n <= U64_MAX
    ensures Wrap(n) == n
  {
  }

  /** The width of the first blocks wraps only when there are none of them. */
  lemma BoundaryDoesNotWrap(total: U64, ranks: U64)
    requires ranks > 0
    ensures var wide, base := total % ranks, total / ranks;
      Wrap(wide * Wrap(base + 1)) == wide * (base + 1) && (wide > 0 ==> Wrap(base + 1) == base + 1)
  {
    var wide, base := total % ranks, total / ranks;
    BoundaryWithinTotal(total, ranks);
    if base == U64_MAX {
      BaseBelowTotal(total, ranks);
      assert wide * Wrap(base + 1) == 0 && wide * (base + 1) == 0;
    } else {
      WrapKeeps(base + 1);
      WrapKeeps(wide * (base + 1));
    }
  }

  /** The owner's arithmetic wraps in one place only, when a single rank owns 2^64 - 1
      indices, and there the wrapped factor is multiplied by zero. */
  lemma OwnerDoesNotWrap(total: U64, ranks: U64, global: U64, owner: U64)
    requires ranks > 0 && global < total && Owner(total, ranks, global) == owner
    ensures BlockOwner(total, ranks, global) == AsIsize(owner)
  {
    BoundaryDoesNotWrap(total, ranks);
    hide Wrap;
    assert Wrap(owner) == owner by { WrapKeeps(owner); }
  }

  /** A valid rank owns exactly the indices of its block, for any number of ranks. */
  lemma OwnerOwnsItsBlock(total: U64, ranks: U64, rank: U64, global: U64)
    requires RankValid(rank, ranks) && global < total
    ensures BlockOwner(total, ranks, global) == AsIsize(rank) <==>
      BlockStart(total, ranks, rank) <= global < BlockStart(total, ranks, rank) + BlockLength(total, ranks, rank)
  {
    OwnerIff(total, ranks, global, rank);
    OwnerDoesNotWrap(total, ranks, global, Owner(total, ranks, global));
    BlocksDoNotWrap(total, ranks, rank);
  }

  /** From an index to its block and offset: some valid rank owns it and locates it. */
  lemma IndexHasBlockAndOffset(total: U64, ranks: U64, global: U64) returns (rank: U64, offset: U64)
    requires ranks > 0 && global < total
    ensures RankValid(rank, ranks) && offset < BlockLength(total, ranks, rank)
    ensures BlockOwner(total, ranks, global) == AsIsize(rank)
    ensures BlockStart(total, ranks, rank) + offset == global
    ensures LocalOffset(total, ranks, rank, global) == AsIsize(offset)
  {
    hide BlockOwner, Start, Length, BlockStart, BlockLength, Owner;
    OwnerIff(total, ranks, global, 0);
    rank := Owner(total, ranks, global);
    OwnerIff(total, ranks, global, rank);
    OwnerDoesNotWrap(total, ranks, global, rank);
    BlocksDoNotWrap(total, ranks, rank);
    offset := global - Start(total, ranks, rank);
    assert Wrap(offset) == offset;
  }

  /** And back: each block and offset within it locate one index. */
  lemma BlockAndOffsetHaveIndex(total: U64, ranks: U64, rank: U64, offset: U64)
    requires RankValid(rank, ranks) && offset < BlockLength(total, ranks, rank)
    ensures BlockStart(total, ranks, rank) + offset < total
    ensures BlockOwner(total, ranks, BlockStart(total, ranks, rank) + offset) == AsIsize(rank)
    ensures LocalOffset(total, ranks, rank, BlockStart(total, ranks, rank) + offset) == AsIsize(offset)
  {
    hide BlockOwner, Start, Length, BlockStart, BlockLength;
    BlocksDoNotWrap(total, ranks, rank);
    var global := BlockStart(total, ranks, rank) + offset;
    OwnerOwnsItsBlock(total, ranks, rank, global);
    assert Wrap(offset) == offset;
  }

  // -------------------------------------------------------- the signed owner

  /** The owner an index ought to have, or -1. */
  function ExpectedOwner(total: U64, ranks: U64, global: U64): int {
    if ranks == 0 || global >= total then -1 else Owner(total, ranks, global)
  }

  lemma CastIsRightIff(u: U64)
    ensures AsIsize(u) == u <==> u <= I64_MAX
    ensures AsIsize(u) >= 0 <==> u <= I64_MAX
  {
  }

  /** The reported owner is right exactly when it fits the signed result; any other
      owned index is reported as though nobody owned it. */
  lemma BlockOwnerIsRightIff(total: U64, ranks: U64, global: U64)
    ensures BlockOwner(total, ranks, global) == ExpectedOwner(total, ranks, global) <==>
      ExpectedOwner(total, ranks, global) <= I64_MAX
    ensures BlockOwner(total, ranks, global) >= 0 <==> 0 <= ExpectedOwner(total, ranks, global) <= I64_MAX
  {
    hide BlockOwner, Owner, AsIsize;
    if ranks == 0 || global >= total {
      NobodyOwns(total, ranks, global);
    } else {
      OwnerIff(total, ranks, global, 0);
      var owner: U64 := Owner(total, ranks, global);
      OwnerDoesNotWrap(total, ranks, global, owner);
      CastIsRightIff(owner);
    }
  }

  ghost predicate OwnersAreRight(total: U64, ranks: U64) {
    forall global: U64 :: BlockOwner(total, ranks, global) == ExpectedOwner(total, ranks, global)
  }

  /** Every index of a range has its owner reported rightly exactly when the range or
      the number of ranks is at most 2^63. */
  lemma OwnersAreRightIff(total: U64, ranks: U64)
    ensures OwnersAreRight(total, ranks) <==> total <= I64_MAX + 1 || ranks <= I64_MAX + 1
  {
    hide BlockOwner, Owner;
    forall global: U64
      ensures (total <= I64_MAX + 1 || ranks <= I64_MAX + 1) ==>
        BlockOwner(total, ranks, global) == ExpectedOwner(total, ranks, global)
    {
      BlockOwnerIsRightIff(total, ranks, global);
      if ranks > 0 && global < total { OwnerIsSmall(total, ranks, global); }
    }
    if total > I64_MAX + 1 && ranks > I64_MAX + 1 {
      LastOwner(total, ranks);
      BlockOwnerIsRightIff(total, ranks, total - 1);
    }
  }

  lemma OwnerIsSmall(total: U64, ranks: U64, global: U64)
    requires ranks > 0 && global < total
    ensures 0 <= Owner(total, ranks, global) < ranks && Owner(total, ranks, global) <= global
  {
    hide Owner;
    OwnerIff(total, ranks, global, 0);
    var owner := Owner(total, ranks, global);
    OwnerIff(total, ranks, global, owner);
    StartAtLeast(total, ranks, owner, global);
  }

  lemma StartAtLeast(total: nat, ranks: nat, rank: nat, global: nat)
    requires ranks > 0 && InBlock(total, ranks, rank, global)
    ensures rank <= global
  {
    var base := total / ranks;
    if base > 0 { MulMonotone(1, base, rank); } else { assert base * rank == 0; }
  }

  /** The last index belongs to the last rank that has any. */
  lemma LastOwner(total: U64, ranks: U64)
    requires ranks > 0 && total > 0
    ensures Owner(total, ranks, total - 1) == (if total < ranks then total else ranks) - 1
  {
    hide Owner, InBlock;
    if total < ranks {
      FewIndices(total, ranks);
      OwnerIff(total, ranks, total - 1, total - 1);
    } else {
      ManyIndices(total, ranks);
      OwnerIff(total, ranks, total - 1, ranks - 1);
    }
  }

  lemma FewIndices(total: nat, ranks: nat)
    requires 0 < total < ranks
    ensures InBlock(total, ranks, total - 1, total - 1)
  {
    assert total / ranks == 0 && total % ranks == total;
  }

  lemma ManyIndices(total: nat, ranks: nat)
    requires 0 < ranks <= total
    ensures InBlock(total, ranks, ranks - 1, total - 1)
  {
    hide Start;
    StartStep(total, ranks, ranks - 1);
    StartEnds(total, ranks);
    DivIs(total, ranks, 0);
  }

  // ------------------------------------------------------------ local offset

  predicate Owns(total: U64, ranks: U64, rank: U64, global: U64) {
    RankValid(rank, ranks) && global < total && InBlock(total, ranks, rank, global)
  }

  /** What a local offset ought to be: -1 unless the rank owns the index. */
  function ExpectedOffset(total: U64, ranks: U64, rank: U64, global: U64): int {
    if Owns(total, ranks, rank, global) then global - Start(total, ranks, rank) else -1
  }

  /** The largest rank, cast, looks like the answer for an index that nobody owns. */
  predicate TakenForNobody(total: U64, ranks: U64, rank: U64, global: U64) {
    rank == U64_MAX && (ranks == 0 || global >= total) && (global + 1) % TWO64 != total
  }

  /** The offset is right for all arguments but those of the largest rank, and those
      of an owner whose offset does not fit the signed result. */
  lemma LocalOffsetIsRightIff(total: U64, ranks: U64, rank: U64, global: U64)
    ensures LocalOffset(total, ranks, rank, global) == ExpectedOffset(total, ranks, rank, global) <==>
      && !TakenForNobody(total, ranks, rank, global)
      && !(Owns(total, ranks, rank, global) && global - BlockStart(total, ranks, rank) > I64_MAX)
  {
    hide BlockOwner, BlockStart, Start, InBlock, AsIsize, Wrap;
    if ranks == 0 || global >= total {
      NobodyOwns(total, ranks, global);
      if rank == U64_MAX {
        OffsetPastTheEnd(total, global);
        assert Wrap(global + 1) == (global + 1) % TWO64 by { WrapIs(global + 1); }
      }
    } else {
      OwnedOffset(total, ranks, rank, global);
    }
    CastOfMax(rank);
    NoBlock(total, ranks, rank);
  }

  lemma WrapIs(n: int)
    ensures Wrap(n) == n % TWO64
  {
  }

  /** The offset of an index that is 2^63 past its block's start comes back negative. */
  lemma FarOffsetIsNegative()
    ensures Owns(0x8000_0000_0000_0001, 1, 0, 0x8000_0000_0000_0000)
    ensures LocalOffset(0x8000_0000_0000_0001, 1, 0, 0x8000_0000_0000_0000) == I64_MIN
    ensures ExpectedOffset(0x8000_0000_0000_0001, 1, 0, 0x8000_0000_0000_0000) == I64_MAX + 1
  {
  }

  lemma CastOfMax(rank: U64)
    ensures AsIsize(rank) == -1 <==> rank == U64_MAX
  {
  }

  lemma NoBlock(total: U64, ranks: U64, rank: U64)
    ensures !RankValid(rank, ranks) ==> BlockStart(total, ranks, rank) == total
  {
  }

  lemma OffsetPastTheEnd(total: U64, global: U64)
    ensures AsIsize(Wrap(global - total)) == -1 <==> Wrap(global + 1) == total
  {
    CastOfMax(Wrap(global - total));
  }

  lemma OwnedOffset(total: U64, ranks: U64, rank: U64, global: U64)
    requires ranks > 0 && global < total
    ensures !Owns(total, ranks, rank, global) ==> LocalOffset(total, ranks, rank, global) == -1
    ensures Owns(total, ranks, rank, global) ==>
      && BlockStart(total, ranks, rank) == Start(total, ranks, rank)
      && (LocalOffset(total, ranks, rank, global) == global - Start(total, ranks, rank) <==>
          global - Start(total, ranks, rank) <= I64_MAX)
  {
    hide BlockOwner, BlockStart, BlockLength, Start, Length, Owner, InBlock;
    OwnerIff(total, ranks, global, rank);
    OwnerDoesNotWrap(total, ranks, global, Owner(total, ranks, global));
    if Owns(total, ranks, rank, global) {
      BlocksDoNotWrap(total, ranks, rank);
      InBlockBounds(total, ranks, rank, global);
      WrapKeeps(global - Start(total, ranks, rank));
    }
  }

  lemma InBlockBounds(total: nat, ranks: nat, rank: nat, global: nat)
    requires ranks > 0 && InBlock(total, ranks, rank, global)
    ensures Start(total, ranks, rank) <= global
  {
  }

  lemma NobodyOwns(total: U64, ranks: U64, global: U64)
    requires ranks == 0 || global >= total
    ensures BlockOwner(total, ranks, global) == -1
  {
  }

  // ------------------------------------------------------------------ guards

  /** Without ranks, or for a rank or an index that is out of range, there is no block:
      it starts at the total and is empty, nobody owns the index, and nothing is local. */
  lemma OutOfRange(total: U64, ranks: U64, rank: U64, global: U64)
    ensures !RankValid(rank, ranks) ==> BlockStart(total, ranks, rank) == total && BlockLength(total, ranks, rank) == 0
    ensures BlockSize(total, ranks) == 0 <==> ranks == 0 || total == 0
    ensures ranks == 0 ==> CyclicOwner(global, ranks) == -1 && CyclicLocalIndex(global, ranks) == 0
    ensures ranks == 0 || global >= total ==> BlockOwner(total, ranks, global) == -1
  {
    if ranks > 0 {
      BlocksDoNotWrap(total, ranks, 0);
      DivMod(total, ranks);
      DivIs(total, ranks, 0);
    }
  }

  // ------------------------------------------------------------------ cyclic

  /** Dealing round-robin: index, owner and local index determine each other. */
  lemma CyclicIsABijection(ranks: U64, global: U64, rank: U64, local: U64)
    requires ranks > 0
    ensures var owner := global % ranks;
      && RankValid(owner, ranks) && CyclicOwner(global, ranks) == AsIsize(owner)
      && CyclicLocalIndex(global, ranks) * ranks + owner == global
    ensures RankValid(rank, ranks) && local * ranks + rank <= U64_MAX ==>
      && CyclicOwner(local * ranks + rank, ranks) == AsIsize(rank)
      && CyclicLocalIndex(local * ranks + rank, ranks) == local
  {
    DivMod(global, ranks);
    if RankValid(rank, ranks) && local * ranks + rank <= U64_MAX {
      var g := local * ranks + rank;
      assert (local + 1) * ranks == local * ranks + ranks;
      DivIs(g, ranks, local);
      DivMod(g, ranks);
    }
  }

  /** The round-robin owner is right exactly when it fits the signed result, and so for
      all indices exactly when there are at most 2^63 ranks. */
  lemma CyclicOwnerIsRightIff(ranks: U64, global: U64)
    requires ranks > 0
    ensures CyclicOwner(global, ranks) == global % ranks <==> global % ranks <= I64_MAX
    ensures (forall g: U64 :: CyclicOwner(g, ranks) == g % ranks) <==> ranks <= I64_MAX + 1
  {
    hide AsIsize;
    CastIsRightIff(global % ranks);
    forall g: U64 ensures CyclicOwner(g, ranks) == g % ranks <==> g % ranks <= I64_MAX {
      CastIsRightIff(g % ranks);
    }
    LastRemainder(ranks);
    if ranks > I64_MAX + 1 {
      assert CyclicOwner(ranks - 1, ranks) != (ranks - 1) % ranks;
    }
  }

  lemma LastRemainder(ranks: nat)
    requires ranks > 0
    ensures (ranks - 1) % ranks == ranks - 1
  {
  }
}
