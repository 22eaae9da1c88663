/**
 * The coalescing invariant of Project/MallocLab/mm.c: every released block
 * goes through `coalesce`, so no two physically consecutive blocks are both
 * free. `check_coalescing` tests it from the footer before each header;
 * here it is stated from each free block forward, and `NoAdjacentFreeIndex`
 * shows the two readings agree on a heap with a layout.
 */
module MmAdjacent {
  import opened MmCodec
  import opened MmHeap

  /** The block right after b reads free. */
  predicate FollowedByFree(h: Heap, b: nat)
  {
    b < |h.mem| && b + Size(h, b) < |h.mem| && IsFree(h, b + Size(h, b))
  }

  /** `check_coalescing` at x: x and the block right after it are not both free. */
  predicate Coalesced(h: Heap, x: nat)
    requires x < |h.mem|
  {
    IsFree(h, x) ==> !FollowedByFree(h, x)
  }

  /** No two physically consecutive blocks both read free. */
  ghost predicate NoAdjacentFree(h: Heap, bs: seq<nat>)
  {
    forall x: nat :: IsBlock(h, bs, x) ==> Coalesced(h, x)
  }

  /**
   * The same, except for the two pairs b belongs to: the heap `free` hands
   * to `coalesce` once it has marked b free.
   */
  ghost predicate NoAdjacentFreeBut(h: Heap, bs: seq<nat>, b: nat)
  {
    forall x: nat :: IsBlock(h, bs, x) && x != b && x + Size(h, x) != b ==> Coalesced(h, x)
  }

  /** Both words are heap words whose tags read free. */
  predicate BothFree(h: Heap, x: nat, y: nat)
  {
    x < |h.mem| && y < |h.mem| && IsFree(h, x) && IsFree(h, y)
  }

  /** Over a layout, the property is the one on consecutive entries of the block sequence. */
  lemma NoAdjacentFreeIndex(h: Heap, bs: seq<nat>)
    requires Layout(h, bs)
    ensures NoAdjacentFree(h, bs) <==> forall i :: 0 <= i < |bs| - 1 ==> !BothFree(h, bs[i], bs[i + 1])
  {
    if NoAdjacentFree(h, bs) {
      CoalescedPairs(h, bs);
    }
    if forall i :: 0 <= i < |bs| - 1 ==> !BothFree(h, bs[i], bs[i + 1]) {
      PairsCoalesced(h, bs);
    }
  }

  /** From the block-wise reading to consecutive entries. */
  lemma CoalescedPairs(h: Heap, bs: seq<nat>)
    requires Layout(h, bs) && NoAdjacentFree(h, bs)
    ensures forall i :: 0 <= i < |bs| - 1 ==> !BothFree(h, bs[i], bs[i + 1])
  {
    forall i | 0 <= i < |bs| - 1
      ensures !BothFree(h, bs[i], bs[i + 1])
    {
      LayoutBounds(h, bs, i);
      assert IsBlock(h, bs, bs[i]);
    }
  }

  /** From consecutive entries to the block-wise reading. */
  lemma PairsCoalesced(h: Heap, bs: seq<nat>)
    requires Layout(h, bs) && forall i :: 0 <= i < |bs| - 1 ==> !BothFree(h, bs[i], bs[i + 1])
    ensures NoAdjacentFree(h, bs)
  {
    forall x: nat | IsBlock(h, bs, x)
      ensures Coalesced(h, x)
    {
      var i := BlockIndex(h, bs, x);
      LayoutBounds(h, bs, i + 1);
      assert !BothFree(h, bs[i], bs[i + 1]);
    }
  }

  /** A change that keeps every header but y's keeps the property away from y. */
  lemma KeepsNoAdjacentFreeBut(h: Heap, r: Heap, bs: seq<nat>, y: nat)
    requires Layout(h, bs) && NoAdjacentFree(h, bs)
    requires |r.mem| == |h.mem| && KeepsHeaders(h, r, bs, y)
    ensures NoAdjacentFreeBut(r, bs, y)
  {
    forall x: nat | IsBlock(r, bs, x) && x != y && x + Size(r, x) != y
      ensures Coalesced(r, x)
    {
      var i := BlockIndex(h, bs, x);
      LayoutBounds(h, bs, i + 1);
      assert r.mem[x] == h.mem[x] && Coalesced(h, x);
      assert r.mem[bs[i + 1]] == h.mem[bs[i + 1]];
    }
  }

  /** A change that keeps every header but y's, and y's size and state, keeps the property. */
  lemma KeepsNoAdjacentFree(h: Heap, r: Heap, bs: seq<nat>, y: nat)
    requires Layout(h, bs) && NoAdjacentFree(h, bs)
    requires |r.mem| == |h.mem| && KeepsHeaders(h, r, bs, y)
    requires y < |h.mem| ==> Size(r, y) == Size(h, y) && IsFree(r, y) == IsFree(h, y)
    ensures NoAdjacentFree(r, bs)
  {
    forall x: nat | IsBlock(r, bs, x)
      ensures Coalesced(r, x)
    {
      var i := BlockIndex(h, bs, x);
      LayoutBounds(h, bs, i + 1);
      assert bs[i + 1] == x + Size(h, x);
      assert Size(r, x) == Size(h, x) && IsFree(r, x) == IsFree(h, x);
      assert IsFree(r, bs[i + 1]) == IsFree(h, bs[i + 1]);
      assert Coalesced(h, x);
    }
  }

  /** A change that keeps every header but y's, and y's size, keeps what follows y. */
  lemma KeepsFollowed(h: Heap, r: Heap, bs: seq<nat>, y: nat)
    requires Layout(h, bs) && IsBlock(h, bs, y)
    requires |r.mem| == |h.mem| && KeepsHeaders(h, r, bs, y) && Size(r, y) == Size(h, y)
    ensures FollowedByFree(r, y) == FollowedByFree(h, y)
  {
    var i := BlockIndex(h, bs, y);
    LayoutBounds(h, bs, i + 1);
    assert r.mem[bs[i + 1]] == h.mem[bs[i + 1]];
  }

  /**
   * `place` on b when the rest of the heap is coalesced and what follows b
   * is allocated: b ends up allocated, whole, or cut down with a free rest
   * right after it that ends where b ended. No two free blocks meet.
   */
  lemma PlaceCoalesced(h: Heap, bs: seq<nat>, b: nat, r: Heap, bs': seq<nat>)
    requires Layout(h, bs) && IsBlock(h, bs, b) && NoAdjacentFreeBut(h, bs, b) && !FollowedByFree(h, b)
    requires |r.mem| == |h.mem| && KeepsHeaders(h, r, bs, b) && !IsFree(r, b)
    requires || (Size(r, b) == Size(h, b) && bs' == bs)
             || (&& 0 < Size(r, b) < Size(h, b)
                 && (forall x :: x in bs' ==> x in bs || x == b + Size(r, b))
                 && b + Size(r, b) < |r.mem|
                 && b + Size(r, b) + Size(r, b + Size(r, b)) == b + Size(h, b))
    ensures NoAdjacentFree(r, bs')
  {
    forall x: nat | IsBlock(r, bs', x)
      ensures Coalesced(r, x)
    {
      if x in bs {
        KeptCoalesced(h, bs, b, r, x);
      } else {
        assert x == b + Size(r, b) && Size(r, b) < Size(h, b);
        RestCoalesced(h, bs, b, r);
      }
    }
  }

  /** A block of h other than b keeps its tag; if it reads free, what follows it is b or kept allocated. */
  lemma KeptCoalesced(h: Heap, bs: seq<nat>, b: nat, r: Heap, x: nat)
    requires Layout(h, bs) && IsBlock(h, bs, b) && NoAdjacentFreeBut(h, bs, b)
    requires |r.mem| == |h.mem| && KeepsHeaders(h, r, bs, b) && !IsFree(r, b)
    requires x in bs && x + 1 < |h.mem|
    ensures Coalesced(r, x)
  {
    if x != b {
      var k := BlockIndex(h, bs, x);
      LayoutBounds(h, bs, k + 1);
      assert r.mem[x] == h.mem[x];
      assert bs[k + 1] == x + Size(h, x);
      if bs[k + 1] != b {
        assert r.mem[bs[k + 1]] == h.mem[bs[k + 1]];
        assert Coalesced(h, x);
      }
    }
  }

  /** The rest cut off b is followed by what followed b, which stays allocated. */
  lemma RestCoalesced(h: Heap, bs: seq<nat>, b: nat, r: Heap)
    requires Layout(h, bs) && IsBlock(h, bs, b) && !FollowedByFree(h, b)
    requires |r.mem| == |h.mem| && KeepsHeaders(h, r, bs, b)
    requires b + Size(r, b) < |r.mem| && b + Size(r, b) + Size(r, b + Size(r, b)) == b + Size(h, b)
    ensures Coalesced(r, b + Size(r, b))
  {
    var i := BlockIndex(h, bs, b);
    LayoutBounds(h, bs, i + 1);
    assert bs[i + 1] == b + Size(h, b);
    assert r.mem[bs[i + 1]] == h.mem[bs[i + 1]];
  }

  /**
   * Cutting b down so that a rest starts at `b + Size(r, b)`, with b
   * allocated, keeps the property everywhere except around the rest.
   */
  lemma CutAround(h: Heap, bs: seq<nat>, b: nat, r: Heap, bs': seq<nat>)
    requires Layout(h, bs) && IsBlock(h, bs, b) && NoAdjacentFreeBut(h, bs, b)
    requires |r.mem| == |h.mem| && KeepsHeaders(h, r, bs, b) && !IsFree(r, b)
    requires forall x :: x in bs' ==> x in bs || x == b + Size(r, b)
    ensures NoAdjacentFreeBut(r, bs', b + Size(r, b))
  {
    forall x: nat | IsBlock(r, bs', x) && x != b + Size(r, b) && x + Size(r, x) != b + Size(r, b)
      ensures Coalesced(r, x)
    {
      KeptCoalesced(h, bs, b, r, x);
    }
  }

  /**
   * `extend_heap` turns the old epilogue e into a new block that the new
   * epilogue follows: the heap is coalesced except around e, and what
   * follows e is allocated.
   */
  lemma ExtendAround(h: Heap, bs: seq<nat>, r: Heap, bs': seq<nat>)
    requires Layout(h, bs) && NoAdjacentFree(h, bs) && Layout(r, bs')
    requires |h.mem| <= |r.mem| && KeepsHeaders(h, r, bs, |h.mem| - 1)
    requires forall x :: x in bs' <==> x in bs || x == |r.mem| - 1
    requires |h.mem| - 1 + Size(r, |h.mem| - 1) == |r.mem| - 1
    ensures NoAdjacentFreeBut(r, bs', |h.mem| - 1) && !FollowedByFree(r, |h.mem| - 1)
  {
    var e := |h.mem| - 1;
    forall x: nat | IsBlock(r, bs', x) && x != e && x + Size(r, x) != e
      ensures Coalesced(r, x)
    {
      assert x in bs;
      var j :| 0 <= j < |bs| && bs[j] == x;
      LayoutBounds(h, bs, j);
      var k := BlockIndex(h, bs, x);
      LayoutBounds(h, bs, k + 1);
      assert r.mem[x] == h.mem[x];
      assert bs[k + 1] == x + Size(h, x) && bs[k + 1] != e;
      assert r.mem[bs[k + 1]] == h.mem[bs[k + 1]];
      assert Coalesced(h, x);
    }
  }
}
