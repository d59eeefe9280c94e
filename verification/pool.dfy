/** A pool allocator over one storage area cut into equal blocks. Block i
    serves slots of one size, the i-th smallest of the sizes it was built
    with, and keeps one free flag per slot. Addresses are offsets into the
    storage. */
module Pool {
  import opened Options
  import opened Arith

  predicate SortedSizes(s: seq<nat>)
  {
    forall i, j :: 0 <= i < j < |s| ==> s[i] <= s[j]
  }

  /** s in ascending order. */
  function Sort(s: seq<nat>): (r: seq<nat>)
    ensures |r| == |s| && SortedSizes(r) && multiset(r) == multiset(s)
  {
    if s == [] then []
    else
      var rest := Sort(s[1..]);
      InsertSortedSorted(rest, s[0]);
      InsertSortedPerm(rest, s[0]);
      assert s == [s[0]] + s[1..];
      InsertSorted(rest, s[0])
  }

  /** x placed before the first element of s not below it. */
  function InsertSorted(s: seq<nat>, x: nat): (r: seq<nat>)
    ensures |r| == |s| + 1
    ensures r[0] == x || (s != [] && r[0] == s[0])
  {
    if s == [] || x <= s[0] then [x] + s
    else [s[0]] + InsertSorted(s[1..], x)
  }

  lemma {:induction false} InsertSortedSorted(s: seq<nat>, x: nat)
    requires SortedSizes(s)
    ensures SortedSizes(InsertSorted(s, x))
  {
    if s != [] && x > s[0] {
      InsertSortedSorted(s[1..], x);
      SortedCons(s[0], InsertSorted(s[1..], x));
    }
  }

  lemma {:induction false} InsertSortedPerm(s: seq<nat>, x: nat)
    ensures multiset(InsertSorted(s, x)) == multiset(s) + multiset{x}
  {
    if s != [] && x > s[0] {
      InsertSortedPerm(s[1..], x);
      assert s == [s[0]] + s[1..];
    }
  }

  /** A sorted sequence stays sorted with an element no larger than its
      first in front. */
  lemma SortedCons(x: nat, s: seq<nat>)
    requires SortedSizes(s) && (s != [] ==> x <= s[0])
    ensures SortedSizes([x] + s)
  {
  }

  /** The first index whose size is not below n. */
  function LowerBound(s: seq<nat>, n: nat): (i: nat)
    ensures i <= |s|
    ensures forall j :: 0 <= j < i ==> s[j] < n
    ensures i < |s| ==> s[i] >= n
  {
    if s == [] || s[0] >= n then 0 else 1 + LowerBound(s[1..], n)
  }

  /** The first free slot of a block, or the number of slots when all are
      in use. */
  function FreeSlot(free: seq<bool>): (pos: nat)
    ensures pos <= |free|
    ensures pos < |free| ==> free[pos]
    ensures forall j :: 0 <= j < pos ==> !free[j]
  {
    if free == [] || free[0] then 0 else 1 + FreeSlot(free[1..])
  }

  /** The first block from i on, within the run of blocks of slot size n
      that starts at i, that has a free slot. */
  function FirstFit(sizes: seq<nat>, free: seq<seq<bool>>, n: nat, i: nat): (b: Option<nat>)
    requires |free| == |sizes|
    ensures b.Some? ==> i <= b.value < |sizes| && sizes[b.value] == n
    ensures b.Some? ==> FreeSlot(free[b.value]) < |free[b.value]|
    decreases |sizes| - i
  {
    if i >= |sizes| || sizes[i] != n then None
    else if FreeSlot(free[i]) < |free[i]| then Some(i)
    else FirstFit(sizes, free, n, i + 1)
  }

  /** How many slots of a size fit in a block. */
  function Slots(blockSize: nat, size: nat): nat
    requires size > 0
  {
    blockSize / size
  }

  class PoolAllocator {
    const blockSize: nat
    const blocksCount: nat
    var sizes: seq<nat>
    var free: seq<seq<bool>>

    /** One block per size, sizes ascending and positive, block i holding
        blockSize / sizes[i] slots. A block size of 0, or no sizes at all,
        gives an empty storage whose blocks have no slots. */
    ghost predicate Valid()
      reads this
    {
      && |sizes| == blocksCount && |free| == blocksCount
      && SortedSizes(sizes)
      && (forall i :: 0 <= i < blocksCount ==> sizes[i] > 0)
      && (forall i :: 0 <= i < blocksCount ==> |free[i]| == Slots(blockSize, sizes[i]))
    }

    /** The storage holds one block per size; it is empty exactly when
        the block size is 0 or there are no sizes. */
    function StorageSize(): (n: nat)
      reads this
      ensures n == 0 <==> blockSize == 0 || blocksCount == 0
    {
      blockSize * blocksCount
    }

    /** Sort the sizes, then give every block all its slots free. Slot
        sizes must be positive: each divides the block size. */
    constructor (blockSize: nat, initSizes: seq<nat>)
      requires forall s :: s in initSizes ==> s > 0
      ensures Valid()
      ensures this.blockSize == blockSize && blocksCount == |initSizes|
      ensures SortedSizes(sizes) && multiset(sizes) == multiset(initSizes)
      ensures forall i, pos :: 0 <= i < blocksCount && 0 <= pos < |free[i]| ==> free[i][pos]
    {
      var sorted := Sort(initSizes);
      SortKeepsPositive(initSizes, sorted);
      var flags: seq<seq<bool>> := [];
      for i := 0 to |sorted|
        invariant |flags| == i
        invariant forall j :: 0 <= j < i ==> flags[j] == seq(Slots(blockSize, sorted[j]), _ => true)
      {
        flags := flags + [seq(Slots(blockSize, sorted[i]), _ => true)];
      }
      this.blockSize := blockSize;
      blocksCount := |initSizes|;
      sizes := sorted;
      free := flags;
    }

    /** Offset of slot pos of block b. A slot of the block lies inside the
        block, hence inside the storage, and its offset names the block and
        the slot again. */
    function Offset(b: nat, pos: nat): (off: nat)
      reads this
      requires b < |sizes|
      ensures Valid() && pos < |free[b]| ==>
        && b * blockSize <= off && off + sizes[b] <= (b + 1) * blockSize
        && off + sizes[b] <= StorageSize()
        && off / blockSize == b && off % blockSize / sizes[b] == pos
    {
      SlotFacts(blockSize, blocksCount, sizes[b], b, pos);
      b * blockSize + pos * sizes[b]
    }

    /** Look among the blocks of slot size n, from the first one, for the
        first free slot; mark it used and return its offset, or fail. */
    method Allocate(n: nat) returns (r: Option<nat>)
      requires Valid()
      modifies this
      ensures Valid() && sizes == old(sizes)
      ensures var b := FirstFit(sizes, old(free), n, LowerBound(sizes, n));
        && (b.None? ==> r.None? && free == old(free))
        && (b.Some? ==>
              var pos := FreeSlot(old(free)[b.value]);
              r == Some(Offset(b.value, pos))
              && free == old(free)[b.value := old(free)[b.value][pos := false]])
    {
      var start := LowerBound(sizes, n);
      var i := start;
      while i < blocksCount && sizes[i] == n
        invariant start <= i <= blocksCount
        invariant free == old(free)
        invariant FirstFit(sizes, free, n, start) == FirstFit(sizes, free, n, i)
        decreases blocksCount - i
      {
        var current := free[i];
        var pos := FreeSlot(current);
        if pos != |current| {
          free := free[i := current[pos := false]];
          return Some(Offset(i, pos));
        }
        i := i + 1;
      }
      return None;
    }

    /** The block an offset into the storage falls in. */
    function BlockOf(off: nat): (b: nat)
      reads this
      requires Valid() && off < StorageSize()
      ensures b < blocksCount
    {
      assert blockSize > 0;
      DivBelow(off, blockSize, blocksCount);
      off / blockSize
    }

    /** The slot of its block an offset into the storage falls in: the
        offset lies in the slot's byte range. */
    function SlotOf(off: nat): (pos: nat)
      reads this
      requires Valid() && off < StorageSize()
      ensures Offset(BlockOf(off), pos) <= off < Offset(BlockOf(off), pos) + sizes[BlockOf(off)]
    {
      var b := BlockOf(off);
      var pos := off % blockSize / sizes[b];
      SlotBounds(off, blockSize, sizes[b]);
      assert Offset(b, pos) == b * blockSize + pos * sizes[b];
      pos
    }

    /** Give back the slot an offset falls in, if the offset lies in the
        storage. An offset inside a block's unused tail would name a slot
        past the block's flags, so such offsets are excluded, and so is an
        empty storage, whose last byte does not exist. */
    method Deallocate(off: int)
      requires Valid() && StorageSize() > 0
      requires 0 <= off < StorageSize() ==> SlotOf(off) < |free[BlockOf(off)]|
      modifies this
      ensures Valid() && sizes == old(sizes)
      ensures !(0 <= off < StorageSize()) ==> free == old(free)
      ensures 0 <= off < StorageSize() ==>
        free == old(free)[BlockOf(off) := old(free)[BlockOf(off)][SlotOf(off) := true]]
    {
      if 0 <= off && off <= StorageSize() - 1 {
        var block := off / blockSize;
        var pos := off % blockSize / sizes[block];
        free := free[block := free[block][pos := true]];
      }
    }
  }

  /** With no slots in any block, as with a block size of 0, first fit
      finds nothing: every allocation fails. */
  lemma {:induction false} NoSlotsNoFit(sizes: seq<nat>, free: seq<seq<bool>>, n: nat, i: nat)
    requires |free| == |sizes|
    requires forall j :: 0 <= j < |free| ==> free[j] == []
    ensures FirstFit(sizes, free, n, i).None?
    decreases |sizes| - i
  {
    if i < |sizes| && sizes[i] == n {
      assert FreeSlot(free[i]) == |free[i]|;
      NoSlotsNoFit(sizes, free, n, i + 1);
    }
  }

  /** Sorting keeps every size, so positive sizes stay positive. */
  lemma SortKeepsPositive(s: seq<nat>, r: seq<nat>)
    requires multiset(r) == multiset(s) && forall x :: x in s ==> x > 0
    ensures forall i :: 0 <= i < |r| ==> r[i] > 0
  {
    forall i | 0 <= i < |r| ensures r[i] > 0 {
      assert r[i] in multiset(r);
      assert r[i] in multiset(s);
      assert r[i] in s;
    }
  }

  // ---------------------------------------------------------------------
  // Properties of first fit and of slot offsets

  /** First fit from the lower bound fails exactly when no block of slot
      size n has a free slot, and otherwise finds the first such block. */
  lemma {:induction false} FirstFitIsFirst(sizes: seq<nat>, free: seq<seq<bool>>, n: nat, i: nat)
    requires |free| == |sizes| && SortedSizes(sizes) && i <= |sizes|
    requires i < |sizes| ==> sizes[i] >= n
    requires forall j :: 0 <= j < i ==> sizes[j] <= n
    requires forall j :: 0 <= j < i && sizes[j] == n ==> FreeSlot(free[j]) == |free[j]|
    ensures FirstFit(sizes, free, n, i).None? <==>
      forall j :: 0 <= j < |sizes| && sizes[j] == n ==> FreeSlot(free[j]) == |free[j]|
    ensures FirstFit(sizes, free, n, i).Some? ==>
      forall j :: 0 <= j < FirstFit(sizes, free, n, i).value && sizes[j] == n ==> FreeSlot(free[j]) == |free[j]|
    decreases |sizes| - i
  {
    if i < |sizes| && sizes[i] == n && FreeSlot(free[i]) == |free[i]| {
      FirstFitIsFirst(sizes, free, n, i + 1);
    }
  }

  /** The facts about the offset of a slot of a block of a storage of
      blocksCount blocks of size blockSize, when that slot exists. */
  lemma SlotFacts(blockSize: nat, blocksCount: nat, s: nat, b: nat, pos: nat)
    ensures s > 0 && b < blocksCount && pos < blockSize / s ==>
      var off := b * blockSize + pos * s;
      && b * blockSize <= off && off + s <= (b + 1) * blockSize
      && off + s <= blockSize * blocksCount
      && off / blockSize == b && off % blockSize / s == pos
  {
    if s > 0 && b < blocksCount && pos < blockSize / s {
      SlotInBlock(blockSize, s, b, pos);
      OffsetRoundTrip(blockSize, blocksCount, s, b, pos);
      MulMono(b + 1, blocksCount, blockSize);
    }
  }

  /** An offset lies between the start of its slot and the start of the
      next one. */
  lemma SlotBounds(off: nat, blockSize: nat, s: nat)
    requires blockSize > 0 && s > 0
    ensures var b, pos := off / blockSize, off % blockSize / s;
      b * blockSize + pos * s <= off < b * blockSize + pos * s + s
  {
    var b, rem := off / blockSize, off % blockSize;
    var pos := rem / s;
    assert off == b * blockSize + rem;
    assert rem == pos * s + rem % s;
  }

  /** A slot of block b lies inside block b: a block of size B holds
      B / s slots of size s. */
  lemma SlotInBlock(blockSize: nat, s: nat, b: nat, pos: nat)
    requires blockSize > 0 && s > 0 && pos < blockSize / s
    ensures b * blockSize <= b * blockSize + pos * s
    ensures b * blockSize + pos * s + s <= (b + 1) * blockSize
  {
    MulMono(pos + 1, blockSize / s, s);
    assert (pos + 1) * s == pos * s + s;
  }

  /** Freeing the offset of a slot finds that slot again. */
  lemma OffsetRoundTrip(blockSize: nat, blocksCount: nat, s: nat, b: nat, pos: nat)
    requires blockSize > 0 && s > 0 && b < blocksCount && pos < blockSize / s
    ensures var off := b * blockSize + pos * s;
      && 0 <= off < blockSize * blocksCount
      && off / blockSize == b
      && (off % blockSize) / s == pos
  {
    SlotInBlock(blockSize, s, b, pos);
    var off := b * blockSize + pos * s;
    DivModUnique(off, blockSize, b, pos * s);
    DivModUnique(pos * s, s, pos, 0);
    MulMono(b + 1, blocksCount, blockSize);
  }

  /** Distinct slots occupy disjoint ranges of the storage. */
  lemma SlotsDisjoint(blockSize: nat, s1: nat, b1: nat, p1: nat, s2: nat, b2: nat, p2: nat)
    requires blockSize > 0 && s1 > 0 && s2 > 0
    requires p1 < blockSize / s1 && p2 < blockSize / s2
    requires b1 == b2 ==> s1 == s2
    requires (b1, p1) != (b2, p2)
    ensures var o1, o2 := b1 * blockSize + p1 * s1, b2 * blockSize + p2 * s2;
      o1 + s1 <= o2 || o2 + s2 <= o1
  {
    SlotInBlock(blockSize, s1, b1, p1);
    SlotInBlock(blockSize, s2, b2, p2);
    if b1 < b2 {
      MulMono(b1 + 1, b2, blockSize);
    } else if b2 < b1 {
      MulMono(b2 + 1, b1, blockSize);
    } else if p1 < p2 {
      MulMono(p1 + 1, p2, s1);
    } else {
      MulMono(p2 + 1, p1, s1);
    }
  }
}
