/**
 * The allocator's entry points and the two routines they share
 * (Project/MallocLab/mm.c): `place`, `coalesce`, `malloc`, `free`,
 * `realloc`, `calloc` and `mm_init`. Each is a method on a heap value; the
 * block sequence and the class lists are ghost companions that the
 * contracts relate before and after the call.
 */
module MmAlloc {
  import opened MmCodec
  import opened MmHeap
  import opened MmLists
  import opened MmFit
  import opened MmPlace
  import opened MmCombine
  import opened MmExtend
  import opened MmSteps
  import opened MmAdjacent
  import opened Seqs

  // ---------------------------------------------------------------------
  // Physical neighbours
  // ---------------------------------------------------------------------

  /** The block physically before b: the previous entry of the block sequence, or the prologue. */
  function PrevBlock(h: Heap, bs: seq<nat>, b: nat): (p: nat)
    requires Layout(h, bs) && IsBlock(h, bs, b)
    ensures p < b
  {
    var i := IndexOf(bs, b);
    LayoutBounds(h, bs, i);
    if i == 0 then PROLOGUE
    else
      LayoutOrdered(h, bs, i - 1, i);
      bs[i - 1]
  }

  /** The block physically after b: the next entry of the block sequence, maybe the epilogue. */
  function NextBlock(h: Heap, bs: seq<nat>, b: nat): (q: nat)
    requires Layout(h, bs) && IsBlock(h, bs, b)
    ensures b < q < |h.mem|
  {
    var i := IndexOf(bs, b);
    LayoutBounds(h, bs, i + 1);
    LayoutOrdered(h, bs, i, i + 1);
    bs[i + 1]
  }

  /**
   * `block_prev` and `block_next` find the physical neighbours through the
   * footer before the header and the size in the header. The prologue and
   * the epilogue never read free, so a free neighbour is a real block.
   */
  lemma Neighbours(h: Heap, bs: seq<nat>, b: nat)
    requires Layout(h, bs) && IsBlock(h, bs, b)
    ensures 1 <= b && Size(h, b - 1) <= b && BlockPrev(h, b) == PrevBlock(h, bs, b)
    ensures BlockNext(h, b) == NextBlock(h, bs, b)
    ensures IsFree(h, PrevBlock(h, bs, b)) ==> Adjacent(h, bs, PrevBlock(h, bs, b), b)
    ensures IsFree(h, NextBlock(h, bs, b)) ==> Adjacent(h, bs, b, NextBlock(h, bs, b))
  {
    var i := BlockIndex(h, bs, b);
    OnlyAt(h, bs, i);
    assert IndexOf(bs, b) == i;
    PrevNeighbour(h, bs, b, i);
    NextNeighbour(h, bs, b, i);
  }

  lemma PrevNeighbour(h: Heap, bs: seq<nat>, b: nat, i: nat)
    requires Layout(h, bs) && IsBlock(h, bs, b) && i < |bs| - 1 && bs[i] == b && IndexOf(bs, b) == i
    ensures 1 <= b && Size(h, b - 1) <= b && BlockPrev(h, b) == PrevBlock(h, bs, b)
    ensures IsFree(h, PrevBlock(h, bs, b)) ==> Adjacent(h, bs, PrevBlock(h, bs, b), b)
  {
    LayoutBounds(h, bs, i);
    if i == 0 {
      PrologueTag();
      assert b == FIRST && h.mem[b - 1] == PROLOGUE_TAG;
      assert PrevBlock(h, bs, b) == PROLOGUE;
    } else {
      var p := bs[i - 1];
      assert PrevBlock(h, bs, b) == p;
      assert BlockOk(h, p);
      assert b == p + Size(h, p);
      LayoutBounds(h, bs, i - 1);
      assert h.mem[b - 1] == h.mem[p];
    }
  }

  /** When block a ends where b starts, a is the block before b. */
  lemma PrevOfAdjacent(h: Heap, bs: seq<nat>, a: nat, b: nat)
    requires Layout(h, bs) && Adjacent(h, bs, a, b)
    ensures PrevBlock(h, bs, b) == a
  {
    var i := AdjacentIndex(h, bs, a, b);
  }

  /** The prologue's tag reads as a two-word allocated block. */
  lemma PrologueTag()
    ensures SizeField(PROLOGUE_TAG) == 2 && !FreeField(PROLOGUE_TAG)
  {
  }

  lemma NextNeighbour(h: Heap, bs: seq<nat>, b: nat, i: nat)
    requires Layout(h, bs) && IsBlock(h, bs, b) && i < |bs| - 1 && bs[i] == b && IndexOf(bs, b) == i
    ensures BlockNext(h, b) == NextBlock(h, bs, b)
    ensures IsFree(h, NextBlock(h, bs, b)) ==> Adjacent(h, bs, b, NextBlock(h, bs, b))
  {
    LayoutBounds(h, bs, i);
    assert bs[i + 1] == b + Size(h, b);
    if i + 1 < |bs| - 1 {
      LayoutBounds(h, bs, i + 1);
    }
  }

  /** In a coalesced heap both physical neighbours of a free block are allocated. */
  lemma FreeNeighbours(h: Heap, bs: seq<nat>, b: nat)
    requires Layout(h, bs) && IsBlock(h, bs, b) && IsFree(h, b) && NoAdjacentFree(h, bs)
    ensures !IsFree(h, PrevBlock(h, bs, b)) && !IsFree(h, NextBlock(h, bs, b))
  {
    Neighbours(h, bs, b);
    assert Coalesced(h, b);
  }

  // ---------------------------------------------------------------------
  // place
  // ---------------------------------------------------------------------

  /**
   * `place`: hand out n words of the unlisted block b. When the rest would
   * be at most the minimum block the whole block is marked allocated;
   * otherwise b shrinks to n words and the rest becomes a free block right
   * after it, at the head of the list of its class. The two parts add up
   * to the old block.
   */
  method Place(h: Heap, b: nat, n: nat, ghost bs: seq<nat>, ghost lists: seq<seq<nat>>, ghost ex: set<nat>)
    returns (r: Heap, ghost bs': seq<nat>, ghost lists': seq<seq<nat>>)
    requires Inv(h, bs, lists, ex) && IsBlock(h, bs, b) && b !in lists[GetClassNo(Size(h, b))]
    requires BLOCKSIZE_MIN <= n <= Size(h, b) && n % 2 == 0
    ensures Inv(r, bs', lists', ex - {b}) && IsBlock(r, bs', b) && !IsFree(r, b)
    ensures |r.mem| == |h.mem| && r.limit == h.limit && KeepsHeaders(h, r, bs, b)
    ensures Size(h, b) - n <= BLOCKSIZE_MIN ==> Size(r, b) == Size(h, b) && bs' == bs && lists' == lists
    ensures Size(h, b) - n > BLOCKSIZE_MIN ==>
      && Size(r, b) == n && IsBlock(r, bs', b + n) && IsFree(r, b + n)
      && Size(r, b) + Size(r, b + n) == Size(h, b)
      && (forall x :: x in bs' <==> x in bs || x == b + n)
      && With(lists, b + n, GetClassNo(Size(r, b + n)), lists')
  {
    BlockFacts(h, bs, b);
    if Size(h, b) - n <= BLOCKSIZE_MIN {
      r := Mark(h, b, false, bs, lists, ex);
      bs', lists' := bs, lists;
    } else {
      r, bs', lists' := PlaceSplit(h, b, n, bs, lists, ex);
    }
  }

  /** What `place` leaves is coalesced when the heap was, away from b, and b is followed by an allocated block. */
  lemma PlacedCoalesced(h: Heap, bs: seq<nat>, b: nat, n: nat, r: Heap, bs': seq<nat>)
    requires Layout(h, bs) && IsBlock(h, bs, b) && BLOCKSIZE_MIN <= n
    requires |r.mem| == |h.mem| && KeepsHeaders(h, r, bs, b) && !IsFree(r, b)
    requires Size(h, b) - n <= BLOCKSIZE_MIN ==> Size(r, b) == Size(h, b) && bs' == bs
    requires Size(h, b) - n > BLOCKSIZE_MIN ==>
      && Size(r, b) == n && IsBlock(r, bs', b + n)
      && Size(r, b) + Size(r, b + n) == Size(h, b)
      && (forall x :: x in bs' <==> x in bs || x == b + n)
    ensures NoAdjacentFreeBut(h, bs, b) && !FollowedByFree(h, b) ==> NoAdjacentFree(r, bs')
  {
    if NoAdjacentFreeBut(h, bs, b) && !FollowedByFree(h, b) {
      PlaceCoalesced(h, bs, b, r, bs');
    }
  }

  /** The split branch of `place`. */
  method PlaceSplit(h: Heap, b: nat, n: nat, ghost bs: seq<nat>, ghost lists: seq<seq<nat>>, ghost ex: set<nat>)
    returns (r: Heap, ghost bs': seq<nat>, ghost lists': seq<seq<nat>>)
    requires Inv(h, bs, lists, ex) && IsBlock(h, bs, b) && b !in lists[GetClassNo(Size(h, b))]
    requires BLOCKSIZE_MIN <= n && Size(h, b) - n > BLOCKSIZE_MIN && n % 2 == 0
    ensures Inv(r, bs', lists', ex - {b}) && IsBlock(r, bs', b) && !IsFree(r, b)
    ensures |r.mem| == |h.mem| && r.limit == h.limit && KeepsHeaders(h, r, bs, b)
    ensures Size(r, b) == n && IsBlock(r, bs', b + n) && IsFree(r, b + n)
    ensures Size(r, b) + Size(r, b + n) == Size(h, b)
    ensures forall x :: x in bs' <==> x in bs || x == b + n
    ensures With(lists, b + n, GetClassNo(Size(r, b + n)), lists')
  {
    BlockFacts(h, bs, b);
    var r1;
    r1, bs' := Split(h, b, n, bs, lists, ex);
    assert b + n !in ex;
    r, lists' := PushRemainder(h, b, n, bs, lists, ex, r1, bs');
  }

  /** The second half of the split branch: the remainder at b + n goes onto its list. */
  method PushRemainder(h: Heap, b: nat, n: nat, ghost bs: seq<nat>, ghost lists: seq<seq<nat>>, ghost ex: set<nat>,
                       r1: Heap, ghost bs': seq<nat>)
    returns (r: Heap, ghost lists': seq<seq<nat>>)
    requires b + 1 < |h.mem| && BLOCKSIZE_MIN <= n && b + n !in ex
    requires Inv(r1, bs', lists, ex - {b} + {b + n})
    requires |r1.mem| == |h.mem| && r1.limit == h.limit
    requires IsBlock(r1, bs', b) && IsBlock(r1, bs', b + n) && b + n !in bs
    requires Size(r1, b) == n && !IsFree(r1, b) && Size(r1, b + n) == Size(h, b) - n && IsFree(r1, b + n)
    requires KeepsHeaders(h, r1, bs, b)
    requires forall x :: x in bs' <==> x in bs || x == b + n
    ensures Inv(r, bs', lists', ex - {b}) && IsBlock(r, bs', b) && !IsFree(r, b)
    ensures |r.mem| == |h.mem| && r.limit == h.limit && KeepsHeaders(h, r, bs, b)
    ensures Size(r, b) == n && IsBlock(r, bs', b + n) && IsFree(r, b + n)
    ensures Size(r, b) + Size(r, b + n) == Size(h, b)
    ensures With(lists, b + n, GetClassNo(Size(r, b + n)), lists')
  {
    r, lists' := Push(r1, b + n, bs', lists, ex - {b} + {b + n});
    SplitPushed(h, b, n, bs, lists, ex, r1, bs', r, lists');
  }

  /** What the split and the push of the remainder leave behind, over the two heaps they return. */
  lemma SplitPushed(h: Heap, b: nat, n: nat, bs: seq<nat>, lists: seq<seq<nat>>, ex: set<nat>,
                    r1: Heap, bs': seq<nat>, r: Heap, lists': seq<seq<nat>>)
    requires b + 1 < |h.mem| && BLOCKSIZE_MIN <= n && b + n !in ex
    requires |r1.mem| == |h.mem| && r1.limit == h.limit
    requires IsBlock(r1, bs', b) && IsBlock(r1, bs', b + n) && b + n !in bs
    requires Size(r1, b) == n && !IsFree(r1, b) && Size(r1, b + n) == Size(h, b) - n && IsFree(r1, b + n)
    requires KeepsHeaders(h, r1, bs, b)
    requires forall x :: x in bs' <==> x in bs || x == b + n
    requires Inv(r, bs', lists', ex - {b} + {b + n} - {b + n})
    requires |r.mem| == |r1.mem| && r.limit == r1.limit
    requires Size(r, b + n) == Size(r1, b + n) && IsFree(r, b + n) && KeepsHeaders(r1, r, bs', b + n)
    requires With(lists, b + n, GetClassNo(Size(r1, b + n)), lists')
    ensures Inv(r, bs', lists', ex - {b}) && IsBlock(r, bs', b) && !IsFree(r, b)
    ensures |r.mem| == |h.mem| && r.limit == h.limit && KeepsHeaders(h, r, bs, b)
    ensures Size(r, b) == n && IsBlock(r, bs', b + n) && IsFree(r, b + n)
    ensures Size(r, b) + Size(r, b + n) == Size(h, b)
    ensures With(lists, b + n, GetClassNo(Size(r, b + n)), lists')
  {
    assert ex - {b} + {b + n} - {b + n} == ex - {b};
    assert r.mem[b] == r1.mem[b] by {
      var i :| 0 <= i < |bs'| && bs'[i] == b;
    }
    assert KeepsHeaders(h, r, bs, b) by {
      KeepsHeadersSub(r1, r, bs, bs', b + n, b);
      KeepsHeadersTrans(h, r1, r, bs, b);
    }
  }

  // ---------------------------------------------------------------------
  // coalesce
  // ---------------------------------------------------------------------

  /**
   * `coalesce` on a block just marked free: merge it with whichever
   * physical neighbours are free. The result is the lowest block of the
   * merged run (the previous block when that is free, b otherwise); its
   * size is the sum of the merged blocks; merged neighbours are taken off
   * their lists and merged blocks other than the result leave the block
   * sequence. With no free neighbour nothing changes.
   */
  method Coalesce(h: Heap, b: nat, ghost bs: seq<nat>, ghost lists: seq<seq<nat>>)
    returns (r: Heap, res: nat, ghost bs': seq<nat>, ghost lists': seq<seq<nat>>)
    requires Inv(h, bs, lists, {b}) && IsBlock(h, bs, b) && IsFree(h, b)
    ensures Inv(r, bs', lists', {res}) && IsBlock(r, bs', res) && IsFree(r, res)
    ensures |r.mem| == |h.mem| && r.limit == h.limit && KeepsHeaders(h, r, bs', res)
    ensures var p, q := PrevBlock(h, bs, b), NextBlock(h, bs, b);
      var pf, qf := IsFree(h, p), IsFree(h, q);
      && res == (if pf then p else b)
      && Size(r, res) == (if pf then Size(h, p) else 0) + Size(h, b) + (if qf then Size(h, q) else 0)
      && (forall x :: x in bs' <==> x in bs && !(pf && x == b) && !(qf && x == q))
      && (forall c, x :: 0 <= c < CLASS_NUMBER ==>
            (x in lists'[c] <==> x in lists[c] && !(pf && x == p) && !(qf && x == q)))
      && (!pf && !qf ==> r == h && bs' == bs && lists' == lists)
    ensures NoAdjacentFreeBut(h, bs, b) ==>
      NoAdjacentFree(r, bs') && !IsFree(r, PrevBlock(r, bs', res)) && !IsFree(r, NextBlock(r, bs', res))
  {
    Neighbours(h, bs, b);
    var prev := BlockPrev(h, b);
    var next := BlockNext(h, b);
    if !IsFree(h, prev) && !IsFree(h, next) {
      r, res, bs', lists' := h, b, bs, lists;
    } else if IsFree(h, prev) && !IsFree(h, next) {
      r, bs', lists' := CoalescePrev(h, b, prev, bs, lists);
      res := prev;
    } else if !IsFree(h, prev) && IsFree(h, next) {
      r, bs', lists' := CoalesceNext(h, b, next, bs, lists);
      res := b;
    } else {
      r, bs', lists' := CoalesceBoth(h, b, prev, next, bs, lists);
      res := prev;
    }
    if NoAdjacentFreeBut(h, bs, b) {
      CoalesceCoalesced(h, bs, b, r, res, bs');
      FreeNeighbours(r, bs', res);
    }
  }

  /**
   * `coalesce` on b in a heap coalesced away from b leaves it coalesced:
   * the merged block is followed by what followed the last block merged,
   * and any other free block still has an allocated block after it.
   */
  lemma CoalesceCoalesced(h: Heap, bs: seq<nat>, b: nat, r: Heap, res: nat, bs': seq<nat>)
    requires Layout(h, bs) && IsBlock(h, bs, b) && IsFree(h, b) && NoAdjacentFreeBut(h, bs, b)
    requires |r.mem| == |h.mem| && KeepsHeaders(h, r, bs', res) && res < |r.mem| && IsFree(r, res)
    requires var p, q := PrevBlock(h, bs, b), NextBlock(h, bs, b);
      var pf, qf := IsFree(h, p), IsFree(h, q);
      && res == (if pf then p else b)
      && Size(r, res) == (if pf then Size(h, p) else 0) + Size(h, b) + (if qf then Size(h, q) else 0)
      && (forall x :: x in bs' <==> x in bs && !(pf && x == b) && !(qf && x == q))
    ensures NoAdjacentFree(r, bs')
  {
    Neighbours(h, bs, b);
    var p, q := PrevBlock(h, bs, b), NextBlock(h, bs, b);
    var z := MergeEnd(h, bs, b);
    forall x: nat | IsBlock(r, bs', x)
      ensures Coalesced(r, x)
    {
      if x == res {
        MergedCoalesced(h, bs, b, p, IsFree(h, p), q, IsFree(h, q), z, r, res, bs');
      } else {
        if Adjacent(h, bs, x, b) {
          PrevOfAdjacent(h, bs, x, b);
        }
        UnmergedCoalesced(h, bs, b, p, IsFree(h, p), q, IsFree(h, q), r, res, bs', x);
      }
    }
  }

  /** The merged block is followed by z, the allocated block after the run it covers. */
  lemma MergedCoalesced(h: Heap, bs: seq<nat>, b: nat, p: nat, pf: bool, q: nat, qf: bool, z: nat,
                        r: Heap, res: nat, bs': seq<nat>)
    requires b < |h.mem| && p < |h.mem| && q < |h.mem| && q == b + Size(h, b) && (pf ==> p + Size(h, p) == b)
    requires |r.mem| == |h.mem| && KeepsHeaders(h, r, bs', res) && res < |r.mem|
    requires res == (if pf then p else b)
    requires Size(r, res) == (if pf then Size(h, p) else 0) + Size(h, b) + (if qf then Size(h, q) else 0)
    requires forall x :: x in bs' <==> x in bs && !(pf && x == b) && !(qf && x == q)
    requires z == (if qf then q + Size(h, q) else q) && (qf ==> q < z)
    requires z in bs && b < z < |h.mem| && !IsFree(h, z)
    ensures Coalesced(r, res)
  {
    assert res + Size(r, res) == z && z in bs';
    var t :| 0 <= t < |bs'| && bs'[t] == z;
    assert r.mem[z] == h.mem[z];
  }

  /** The block that follows the run `coalesce` merges: after q when q is merged, q otherwise. It is allocated. */
  lemma MergeEnd(h: Heap, bs: seq<nat>, b: nat) returns (z: nat)
    requires Layout(h, bs) && IsBlock(h, bs, b) && IsFree(h, b) && NoAdjacentFreeBut(h, bs, b)
    ensures var q := NextBlock(h, bs, b);
      && z == (if IsFree(h, q) then q + Size(h, q) else q)
      && (IsFree(h, q) ==> q < z)
    ensures z in bs && b < z < |h.mem| && !IsFree(h, z)
  {
    Neighbours(h, bs, b);
    var q := NextBlock(h, bs, b);
    z := q;
    if IsFree(h, q) {
      var k := BlockIndex(h, bs, q);
      LayoutBounds(h, bs, k + 1);
      z := bs[k + 1];
      assert Coalesced(h, q);
    }
  }

  /**
   * A free block x left out of the merge keeps its tag, and what follows
   * it is not b (b's previous block is p, which is either merged or
   * allocated) and so is allocated and kept.
   */
  lemma UnmergedCoalesced(h: Heap, bs: seq<nat>, b: nat, p: nat, pf: bool, q: nat, qf: bool,
                          r: Heap, res: nat, bs': seq<nat>, x: nat)
    requires Layout(h, bs) && IsBlock(h, bs, b) && NoAdjacentFreeBut(h, bs, b)
    requires p < |h.mem| && pf == IsFree(h, p) && q < |h.mem| && qf == IsFree(h, q)
    requires |r.mem| == |h.mem| && KeepsHeaders(h, r, bs', res)
    requires res == (if pf then p else b)
    requires forall y :: y in bs' <==> y in bs && !(pf && y == b) && !(qf && y == q)
    requires IsBlock(r, bs', x) && x != res && (Adjacent(h, bs, x, b) ==> x == p)
    ensures Coalesced(r, x)
  {
    var t :| 0 <= t < |bs'| && bs'[t] == x;
    assert r.mem[x] == h.mem[x];
    var k := BlockIndex(h, bs, x);
    LayoutBounds(h, bs, k + 1);
    var y := bs[k + 1];
    if IsFree(h, x) {
      assert y == x + Size(h, x) && y != b;
      assert !IsFree(h, y) && y in bs';
      var u :| 0 <= u < |bs'| && bs'[u] == y;
      assert r.mem[y] == h.mem[y];
    }
  }

  /** Case 2 of `coalesce`: only the previous block p is free; b is merged into it. */
  method CoalescePrev(h: Heap, b: nat, p: nat, ghost bs: seq<nat>, ghost lists: seq<seq<nat>>)
    returns (r: Heap, ghost bs': seq<nat>, ghost lists': seq<seq<nat>>)
    requires Inv(h, bs, lists, {b}) && IsFree(h, b) && Adjacent(h, bs, p, b) && IsFree(h, p)
    ensures Inv(r, bs', lists', {p}) && IsBlock(r, bs', p) && IsFree(r, p)
    ensures |r.mem| == |h.mem| && r.limit == h.limit && KeepsHeaders(h, r, bs', p)
    ensures Size(r, p) == Size(h, p) + Size(h, b)
    ensures forall x :: x in bs' <==> x in bs && x != b
    ensures Without(lists, p, lists')
  {
    Listed(h, bs, lists, {b}, p);
    var h1;
    h1, lists' := Unlink(h, p, bs, lists, {b});
    r, bs' := Combine(h1, p, b, bs, lists', {b}, {p});
    KeepsHeadersVia(h, h1, r, bs, bs, bs', p, p, p);
  }

  /** Case 3 of `coalesce`: only the next block q is free; it is merged into b. */
  method CoalesceNext(h: Heap, b: nat, q: nat, ghost bs: seq<nat>, ghost lists: seq<seq<nat>>)
    returns (r: Heap, ghost bs': seq<nat>, ghost lists': seq<seq<nat>>)
    requires Inv(h, bs, lists, {b}) && IsFree(h, b) && Adjacent(h, bs, b, q) && IsFree(h, q)
    ensures Inv(r, bs', lists', {b}) && IsBlock(r, bs', b) && IsFree(r, b)
    ensures |r.mem| == |h.mem| && r.limit == h.limit && KeepsHeaders(h, r, bs', b)
    ensures Size(r, b) == Size(h, b) + Size(h, q)
    ensures forall x :: x in bs' <==> x in bs && x != q
    ensures Without(lists, q, lists')
  {
    Listed(h, bs, lists, {b}, q);
    var h1;
    h1, lists' := Unlink(h, q, bs, lists, {b});
    r, bs' := Combine(h1, b, q, bs, lists', {b}, {b});
    KeepsHeadersVia(h, h1, r, bs, bs, bs', q, b, b);
  }

  /** Case 4 of `coalesce`: both neighbours are free; b and then q are merged into p. */
  method CoalesceBoth(h: Heap, b: nat, p: nat, q: nat, ghost bs: seq<nat>, ghost lists: seq<seq<nat>>)
    returns (r: Heap, ghost bs': seq<nat>, ghost lists': seq<seq<nat>>)
    requires Inv(h, bs, lists, {b}) && IsFree(h, b) && p < b < q
    requires Adjacent(h, bs, p, b) && IsFree(h, p) && Adjacent(h, bs, b, q) && IsFree(h, q)
    ensures Inv(r, bs', lists', {p}) && IsBlock(r, bs', p) && IsFree(r, p)
    ensures |r.mem| == |h.mem| && r.limit == h.limit && KeepsHeaders(h, r, bs', p)
    ensures Size(r, p) == Size(h, p) + Size(h, b) + Size(h, q)
    ensures forall x :: x in bs' <==> x in bs && x != b && x != q
    ensures forall c, x :: 0 <= c < CLASS_NUMBER ==> (x in lists'[c] <==> x in lists[c] && x != p && x != q)
  {
    var h2;
    ghost var h1;
    h2, h1, lists' := UnlinkPair(h, b, p, q, bs, lists);
    r, bs' := MergeThree(h2, b, p, q, bs, lists');
    assert KeepsHeaders(h, r, bs', p) by {
      KeepsHeadersVia(h, h1, h2, bs, bs, bs', p, q, p);
      KeepsHeadersTrans(h, h2, r, bs', p);
    }
  }

  /** The two `combine_block` calls of case 4, once p and q are on no list. */
  method MergeThree(h: Heap, b: nat, p: nat, q: nat, ghost bs: seq<nat>, ghost lists: seq<seq<nat>>)
    returns (r: Heap, ghost bs': seq<nat>)
    requires Inv(h, bs, lists, {b}) && p < b < q
    requires Adjacent(h, bs, p, b) && Adjacent(h, bs, b, q)
    requires Unlisted(h, lists, p) && Unlisted(h, lists, q)
    ensures Inv(r, bs', lists, {p}) && IsBlock(r, bs', p) && IsFree(r, p)
    ensures |r.mem| == |h.mem| && r.limit == h.limit && KeepsHeaders(h, r, bs', p)
    ensures Size(r, p) == Size(h, p) + Size(h, b) + Size(h, q)
    ensures forall x :: x in bs' <==> x in bs && x != b && x != q
  {
    var h1, bs1 := Combine(h, p, b, bs, lists, {b}, {p});
    FirstMerge(h, h1, b, p, q, bs, bs1, lists);
    r, bs' := Combine(h1, p, q, bs1, lists, {p}, {p});
    assert KeepsHeaders(h, r, bs', p) by {
      KeepsHeadersVia(h, h1, r, bs, bs1, bs', p, p, p);
    }
  }

  /** After b is merged into p, p is still followed by q, and both are on no list. */
  lemma FirstMerge(h: Heap, h1: Heap, b: nat, p: nat, q: nat, bs: seq<nat>, bs1: seq<nat>, lists: seq<seq<nat>>)
    requires Inv(h, bs, lists, {b}) && p < b < q && Adjacent(h, bs, p, b) && Adjacent(h, bs, b, q)
    requires Unlisted(h, lists, q)
    requires Inv(h1, bs1, lists, {p}) && |h1.mem| == |h.mem| && IsBlock(h1, bs1, p)
    requires Size(h1, p) == Size(h, p) + Size(h, b) && KeepsHeaders(h, h1, bs, p)
    requires forall x :: x in bs1 <==> x in bs && x != b
    ensures Adjacent(h1, bs1, p, q)
    ensures Unlisted(h1, lists, p) && Unlisted(h1, lists, q) && Size(h1, q) == Size(h, q)
  {
    var k := IndexOf(bs, q);
    assert h1.mem[bs[k]] == h.mem[bs[k]];
  }

  /** The two `delete_block` calls of case 4: p and q leave their lists, b stays in transit. */
  method UnlinkPair(h: Heap, b: nat, p: nat, q: nat, ghost bs: seq<nat>, ghost lists: seq<seq<nat>>)
    returns (r: Heap, ghost h1: Heap, ghost lists': seq<seq<nat>>)
    requires Inv(h, bs, lists, {b}) && IsFree(h, b) && p < b < q
    requires Adjacent(h, bs, p, b) && IsFree(h, p) && Adjacent(h, bs, b, q) && IsFree(h, q)
    ensures Inv(r, bs, lists', {b}) && |r.mem| == |h.mem| && r.limit == h.limit
    ensures Adjacent(r, bs, p, b) && Adjacent(r, bs, b, q)
    ensures Size(r, p) == Size(h, p) && Size(r, b) == Size(h, b) && Size(r, q) == Size(h, q)
    ensures Unlisted(r, lists', p) && Unlisted(r, lists', q)
    ensures forall c, x :: 0 <= c < CLASS_NUMBER ==> (x in lists'[c] <==> x in lists[c] && x != p && x != q)
    ensures |h1.mem| == |h.mem| && KeepsHeaders(h, h1, bs, p) && KeepsHeaders(h1, r, bs, q)
  {
    Listed(h, bs, lists, {b}, p);
    Listed(h, bs, lists, {b}, q);
    var g, lists1 := Unlink(h, p, bs, lists, {b});
    r, lists' := Unlink(g, q, bs, lists1, {b});
    h1 := g;
  }

  // ---------------------------------------------------------------------
  // Live allocations
  // ---------------------------------------------------------------------

  /** x is a block handed out to the program: a real block whose header reads allocated. */
  predicate Allocated(h: Heap, bs: seq<nat>, x: nat)
  {
    IsBlock(h, bs, x) && !IsFree(h, x)
  }

  /** Every block allocated in (h, bs) other than `except` is still allocated in (r, bs'), with its size. */
  ghost predicate KeepsAllocated(h: Heap, bs: seq<nat>, r: Heap, bs': seq<nat>, except: nat)
  {
    forall x :: Allocated(h, bs, x) && x != except ==> Allocated(r, bs', x) && Size(r, x) == Size(h, x)
  }

  /** A step that keeps the headers of ks except y keeps every allocation that stays in ks and is not y. */
  lemma KeepsAllocatedStep(h: Heap, r: Heap, bs: seq<nat>, bs': seq<nat>, ks: seq<nat>, y: nat, b: nat)
    requires KeepsHeaders(h, r, ks, y) && |h.mem| <= |r.mem|
    requires forall x :: Allocated(h, bs, x) && x != b ==> x in ks && x in bs' && x != y
    ensures KeepsAllocated(h, bs, r, bs', b)
  {
    forall x | Allocated(h, bs, x) && x != b
      ensures Allocated(r, bs', x) && Size(r, x) == Size(h, x)
    {
      var i :| 0 <= i < |ks| && ks[i] == x;
    }
  }

  /** Two steps keep the allocations the second one keeps, when the first one's exception was not allocated. */
  lemma KeepsAllocatedTrans(h: Heap, g: Heap, r: Heap, bs: seq<nat>, bg: seq<nat>, br: seq<nat>, a: nat, b: nat)
    requires KeepsAllocated(h, bs, g, bg, a) && KeepsAllocated(g, bg, r, br, b)
    requires a == b || !Allocated(h, bs, a)
    ensures KeepsAllocated(h, bs, r, br, b)
  {
  }

  // ---------------------------------------------------------------------
  // free
  // ---------------------------------------------------------------------

  /**
   * `free`: a NULL pointer or one outside the heap is ignored. Otherwise
   * the block is marked free, merged with its free neighbours, and the
   * merged block goes to the front of the list of its class. The heap stays
   * coherent, the merged block covers the freed one, the freed block is no
   * longer allocated, and every other allocation is untouched.
   */
  method Free(h: Heap, ptr: nat, ghost bs: seq<nat>, ghost lists: seq<seq<nat>>)
    returns (r: Heap, ghost res: nat, ghost bs': seq<nat>, ghost lists': seq<seq<nat>>)
    requires Wf(h, bs, lists)
    requires ptr == 0 || ptr >= |h.mem| || Allocated(h, bs, ptr - 1)
    ensures Wf(r, bs', lists') && |r.mem| == |h.mem| && r.limit == h.limit
    ensures ptr == 0 || ptr >= |h.mem| ==> r == h && bs' == bs && lists' == lists
    ensures 0 < ptr < |h.mem| ==>
      && IsBlock(r, bs', res) && IsFree(r, res) && res <= ptr - 1 < res + Size(r, res)
      && r.seg[GetClassNo(Size(r, res))] == res && res in lists'[GetClassNo(Size(r, res))]
      && !Allocated(r, bs', ptr - 1)
      && KeepsAllocated(h, bs, r, bs', ptr - 1)
    ensures NoAdjacentFree(h, bs) ==> NoAdjacentFree(r, bs')
    ensures 0 < ptr < |h.mem| && NoAdjacentFree(h, bs) ==>
      !IsFree(r, PrevBlock(r, bs', res)) && !IsFree(r, NextBlock(r, bs', res))
  {
    if ptr == 0 || ptr >= |h.mem| {
      r, res, bs', lists' := h, 0, bs, lists;
      return;
    }
    r, res, bs', lists' := FreeBlock(h, ptr - 1, bs, lists);
  }

  /** The body of `free` once the pointer is known to name an allocated block b. */
  method FreeBlock(h: Heap, b: nat, ghost bs: seq<nat>, ghost lists: seq<seq<nat>>)
    returns (r: Heap, ghost res: nat, ghost bs': seq<nat>, ghost lists': seq<seq<nat>>)
    requires Wf(h, bs, lists) && Allocated(h, bs, b)
    ensures Wf(r, bs', lists') && |r.mem| == |h.mem| && r.limit == h.limit
    ensures IsBlock(r, bs', res) && IsFree(r, res) && res <= b < res + Size(r, res)
    ensures r.seg[GetClassNo(Size(r, res))] == res && res in lists'[GetClassNo(Size(r, res))]
    ensures !Allocated(r, bs', b)
    ensures KeepsAllocated(h, bs, r, bs', b)
    ensures NoAdjacentFree(h, bs) ==>
      NoAdjacentFree(r, bs') && !IsFree(r, PrevBlock(r, bs', res)) && !IsFree(r, NextBlock(r, bs', res))
  {
    ListedClass(h, bs, lists);
    var h1 := Mark(h, b, true, bs, lists, {});
    assert {} + {b} == {b};
    if NoAdjacentFree(h, bs) {
      KeepsNoAdjacentFreeBut(h, h1, bs, b);
    }
    r, res, bs', lists' := Release(h1, b, bs, lists, {} + {b});
    assert KeepsAllocated(h, bs, r, bs', b) by {
      KeepsAllocatedStep(h, h1, bs, bs, bs, b, b);
      KeepsAllocatedTrans(h, h1, r, bs, bs, bs', b, b);
    }
  }

  /**
   * `coalesce` then `add_to_free_list` on a block just marked free: the
   * merged block holds b, is free and heads the list of its class, b is no
   * longer an allocated block, and every other allocation is kept. It is
   * b itself when the block before b is allocated. On a heap coalesced
   * away from b the result is coalesced and both neighbours of the merged
   * block are allocated. The transit set ex holds b alone.
   */
  method Release(h: Heap, b: nat, ghost bs: seq<nat>, ghost lists: seq<seq<nat>>, ghost ex: set<nat>)
    returns (r: Heap, ghost res: nat, ghost bs': seq<nat>, ghost lists': seq<seq<nat>>)
    requires Inv(h, bs, lists, ex) && ex == {b} && IsBlock(h, bs, b) && IsFree(h, b)
    ensures Wf(r, bs', lists') && |r.mem| == |h.mem| && r.limit == h.limit
    ensures IsBlock(r, bs', res) && IsFree(r, res) && res <= b < res + Size(r, res)
    ensures !IsFree(h, PrevBlock(h, bs, b)) ==> res == b
    ensures r.seg[GetClassNo(Size(r, res))] == res && res in lists'[GetClassNo(Size(r, res))]
    ensures !Allocated(r, bs', b)
    ensures KeepsAllocated(h, bs, r, bs', b) && NothingNew(h, bs, r, bs')
    ensures NoAdjacentFreeBut(h, bs, b) ==>
      NoAdjacentFree(r, bs') && !IsFree(r, PrevBlock(r, bs', res)) && !IsFree(r, NextBlock(r, bs', res))
  {
    var h2, c, bs1, lists1 := Coalesce(h, b, bs, lists);
    r, lists' := Push(h2, c, bs1, lists1, {c});
    assert {c} - {c} == {};
    res, bs' := c, bs1;
    if NoAdjacentFreeBut(h, bs, b) {
      KeepsNoAdjacentFree(h2, r, bs1, c);
      FreeNeighbours(r, bs', res);
    }
    assert res <= b < res + Size(r, res) && !Allocated(r, bs', b) by {
      Neighbours(h, bs, b);
    }
    assert KeepsAllocated(h, bs, r, bs', b) by {
      FreeKeeps(h, h2, bs, bs1, b, c);
      KeepsAllocatedStep(h2, r, bs1, bs1, bs1, c, b);
      KeepsAllocatedTrans(h, h2, r, bs, bs1, bs1, b, b);
    }
    ReleaseNothingNew(h, bs, b, h2, bs1, c, r);
  }

  /** Merging into the free block c and pushing it allocates nothing: every other block keeps its header. */
  lemma ReleaseNothingNew(h: Heap, bs: seq<nat>, b: nat, h2: Heap, bs1: seq<nat>, c: nat, r: Heap)
    requires |h2.mem| == |h.mem| && KeepsHeaders(h, h2, bs1, c) && (forall x :: x in bs1 ==> x in bs)
    requires |r.mem| == |h2.mem| && KeepsHeaders(h2, r, bs1, c) && c < |r.mem| && IsFree(r, c)
    ensures NothingNew(h, bs, r, bs1)
  {
    forall x | Allocated(r, bs1, x)
      ensures Allocated(h, bs, x)
    {
      var i :| 0 <= i < |bs1| && bs1[i] == x;
    }
  }

  /** `coalesce` keeps every allocation: merged blocks and the result were all free. */
  lemma FreeKeeps(h1: Heap, h2: Heap, bs: seq<nat>, bs1: seq<nat>, b: nat, c: nat)
    requires Layout(h1, bs) && IsBlock(h1, bs, b) && |h2.mem| == |h1.mem|
    requires KeepsHeaders(h1, h2, bs1, c) && IsFree(h1, b)
    requires var p, q := PrevBlock(h1, bs, b), NextBlock(h1, bs, b);
      var pf, qf := IsFree(h1, p), IsFree(h1, q);
      && c == (if pf then p else b)
      && (forall x :: x in bs1 <==> x in bs && !(pf && x == b) && !(qf && x == q))
    ensures KeepsAllocated(h1, bs, h2, bs1, b)
  {
    KeepsAllocatedStep(h1, h2, bs, bs1, bs1, c, b);
  }

  // ---------------------------------------------------------------------
  // malloc
  // ---------------------------------------------------------------------

  /**
   * What an entry point hands back: NULL, the `(void *)-1` that `malloc`
   * returns when `extend_heap` fails, the payload word of a block (header
   * plus one), or `Fault` for a call that writes through `(void *)-1`
   * instead of returning.
   */
  datatype Reply = NullReply | MinusOne | Payload(at: nat) | Fault

  function Max(x: nat, y: nat): (m: nat)
    ensures m >= x && m >= y && (m == x || m == y)
  {
    if x > y then x else y
  }

  /** No listed block of class `GetClassNo(n)` or above has n words. */
  ghost predicate NoFit(h: Heap, lists: seq<seq<nat>>, n: nat)
    requires |lists| == CLASS_NUMBER
  {
    forall c, k :: GetClassNo(n) <= c < CLASS_NUMBER && 0 <= k < |lists[c]| && lists[c][k] < |h.mem| ==>
      Size(h, lists[c][k]) < n
  }

  /** `extend_heap(MAX(n, CHUNKSIZE))` fails: the heap cannot grow by the rounded chunk. */
  predicate GrowFails(h: Heap, n: nat)
  {
    !CanGrow(h, EvenUp(Max(n, CHUNKSIZE)))
  }

  /**
   * `malloc`: a zero request gets NULL. Otherwise the request is rounded
   * to `AdjustedWords`; the first fit from the request's class upward is
   * taken off its list and placed; with no fit the heap grows by at least
   * a chunk and the new block is placed; when the heap cannot grow the
   * answer is `(void *)-1` and nothing changes. A returned block was not
   * allocated before, is allocated now, holds the request plus its two tag
   * words, wastes at most a minimum block, and every earlier allocation is
   * untouched.
   */
  method Malloc(h: Heap, size: nat, ghost bs: seq<nat>, ghost lists: seq<seq<nat>>)
    returns (r: Heap, res: Reply, ghost bs': seq<nat>, ghost lists': seq<seq<nat>>)
    requires Wf(h, bs, lists)
    ensures Wf(r, bs', lists') && |h.mem| <= |r.mem| && r.limit == h.limit
    ensures res.NullReply? <==> size == 0
    ensures !res.Fault?
    ensures res.MinusOne? <==> size > 0 && NoFit(h, lists, AdjustedWords(size)) && GrowFails(h, AdjustedWords(size))
    ensures !res.Payload? ==> r == h && bs' == bs && lists' == lists
    ensures res.Payload? ==>
      && 1 <= res.at && Allocated(r, bs', res.at - 1) && !Allocated(h, bs, res.at - 1)
      && WSIZE * Size(r, res.at - 1) >= size + DSIZE
      && Size(r, res.at - 1) <= AdjustedWords(size) + BLOCKSIZE_MIN
      && KeepsAllocated(h, bs, r, bs', res.at - 1)
    ensures res.Payload? ==> DoubleAligned(res.at)
    ensures ListsInHeap(h, lists)
    ensures res.Payload? && !NoFit(h, lists, AdjustedWords(size)) ==>
      res.at - 1 == FirstFit(h, lists, GetClassNo(AdjustedWords(size)), AdjustedWords(size))
    ensures res.Payload? && NoFit(h, lists, AdjustedWords(size)) ==> res.at - 1 == |h.mem| - 1
    ensures NoAdjacentFree(h, bs) ==> NoAdjacentFree(r, bs')
  {
    ListedBlocks(h, bs, lists);
    if size == 0 {
      r, res, bs', lists' := h, NullReply, bs, lists;
      return;
    }
    var n := AdjustedWords(size);
    AdjustedWordsBounds(size, n);
    var b := FindFirstFit(h, n, bs, lists);
    FitOrNone(h, bs, lists, n);
    if b != 0 {
      r, bs', lists' := MallocFit(h, n, b, bs, lists);
      RequestFits(size, Size(r, b));
      res := Payload(b + 1);
      assert Served(h, bs, r, bs', res.at - 1, size) by {
        assert res.at - 1 == b;
      }
      assert DoubleAligned(res.at) by {
        PayloadAligned(r, bs', b);
      }
    } else if !CanGrow(h, EvenUp(Max(n, CHUNKSIZE))) {
      r, res, bs', lists' := h, MinusOne, bs, lists;
    } else {
      var e;
      r, e, bs', lists' := MallocExtend(h, n, bs, lists);
      RequestFits(size, Size(r, e));
      res := Payload(e + 1);
      assert Served(h, bs, r, bs', res.at - 1, size) by {
        assert res.at - 1 == e;
      }
      assert DoubleAligned(res.at) by {
        PayloadAligned(r, bs', e);
      }
    }
  }

  /** What `malloc` promises about the block at `b` it hands out for `size` bytes. */
  ghost predicate Served(h: Heap, bs: seq<nat>, r: Heap, bs': seq<nat>, b: nat, size: nat)
  {
    && Allocated(r, bs', b) && !Allocated(h, bs, b)
    && WSIZE * Size(r, b) >= size + DSIZE
    && Size(r, b) <= AdjustedWords(size) + BLOCKSIZE_MIN
    && KeepsAllocated(h, bs, r, bs', b)
  }

  /** A block of at least the adjusted size holds the request and its two tag words. */
  lemma RequestFits(size: nat, k: nat)
    requires AdjustedWords(size) <= k
    ensures WSIZE * k >= size + DSIZE
  {
    AdjustedWordsBounds(size, k);
  }

  /** The reference first fit is NULL exactly when nothing fits, and otherwise a free listed block that fits. */
  lemma FitOrNone(h: Heap, bs: seq<nat>, lists: seq<seq<nat>>, n: nat)
    requires Wf(h, bs, lists)
    ensures ListsInHeap(h, lists)
    ensures var f := FirstFit(h, lists, GetClassNo(n), n);
      && (f == 0 <==> NoFit(h, lists, n))
      && (f != 0 ==> IsBlock(h, bs, f) && IsFree(h, f) && f in lists[GetClassNo(Size(h, f))] && n <= Size(h, f))
  {
    FirstFitFree(h, bs, lists, GetClassNo(n), n);
    FirstFitSpec(h, lists, GetClassNo(n), n);
  }

  /** The first-fit branch of `malloc`: `delete_block` then `place`. */
  method MallocFit(h: Heap, n: nat, b: nat, ghost bs: seq<nat>, ghost lists: seq<seq<nat>>)
    returns (r: Heap, ghost bs': seq<nat>, ghost lists': seq<seq<nat>>)
    requires Wf(h, bs, lists) && IsBlock(h, bs, b) && b in lists[GetClassNo(Size(h, b))]
    requires BLOCKSIZE_MIN <= n <= Size(h, b) && n % 2 == 0
    ensures Wf(r, bs', lists') && |r.mem| == |h.mem| && r.limit == h.limit
    ensures Allocated(r, bs', b) && !Allocated(h, bs, b) && n <= Size(r, b) <= n + BLOCKSIZE_MIN
    ensures KeepsAllocated(h, bs, r, bs', b)
    ensures NoAdjacentFree(h, bs) ==> NoAdjacentFree(r, bs')
  {
    var h1, lists1 := Unlink(h, b, bs, lists, {});
    r, bs', lists' := Place(h1, b, n, bs, lists1, {});
    assert {} - {b} == {};
    if NoAdjacentFree(h, bs) {
      KeepsNoAdjacentFreeBut(h, h1, bs, b);
      KeepsFollowed(h, h1, bs, b);
      assert Coalesced(h, b);
      PlacedCoalesced(h1, bs, b, n, r, bs');
    }
    assert KeepsAllocated(h, bs, r, bs', b) by {
      KeepsAllocatedStep(h, h1, bs, bs, bs, b, b);
      KeepsAllocatedStep(h1, r, bs, bs', bs, b, b);
      KeepsAllocatedTrans(h, h1, r, bs, bs, bs', b, b);
    }
  }

  /** The branch of `malloc` that grows the heap: `extend_heap` then `place`. */
  method MallocExtend(h: Heap, n: nat, ghost bs: seq<nat>, ghost lists: seq<seq<nat>>)
    returns (r: Heap, e: nat, ghost bs': seq<nat>, ghost lists': seq<seq<nat>>)
    requires Wf(h, bs, lists) && BLOCKSIZE_MIN <= n && n % 2 == 0 && CanGrow(h, EvenUp(Max(n, CHUNKSIZE)))
    ensures e == |h.mem| - 1 && |r.mem| == |h.mem| + EvenUp(Max(n, CHUNKSIZE)) && r.limit == h.limit
    ensures Wf(r, bs', lists') && Allocated(r, bs', e) && !Allocated(h, bs, e) && n <= Size(r, e) <= n + BLOCKSIZE_MIN
    ensures KeepsAllocated(h, bs, r, bs', e)
    ensures NoAdjacentFree(h, bs) ==> NoAdjacentFree(r, bs')
  {
    var h1;
    ghost var bs1;
    h1, e, bs1 := Extend(h, Max(n, CHUNKSIZE), bs, lists, {});
    if NoAdjacentFree(h, bs) {
      ExtendAround(h, bs, h1, bs1);
    }
    r, bs', lists' := PlaceNew(h, n, bs, lists, h1, e, bs1);
  }

  /** The second half of the extend branch: `place` on the block the old epilogue now heads. */
  method PlaceNew(h: Heap, n: nat, ghost bs: seq<nat>, ghost lists: seq<seq<nat>>, h1: Heap, e: nat, ghost bs1: seq<nat>)
    returns (r: Heap, ghost bs': seq<nat>, ghost lists': seq<seq<nat>>)
    requires e == |h.mem| - 1 && 1 <= |h.mem| && BLOCKSIZE_MIN <= n && n % 2 == 0
    requires Inv(h1, bs1, lists, {} + {|h.mem| - 1})
    requires |h1.mem| == |h.mem| + EvenUp(Max(n, CHUNKSIZE)) && h1.limit == h.limit
    requires IsBlock(h1, bs1, |h.mem| - 1) && Size(h1, |h.mem| - 1) == EvenUp(Max(n, CHUNKSIZE))
    requires KeepsHeaders(h, h1, bs, |h.mem| - 1)
    requires forall x :: x in bs1 <==> x in bs || x == |h1.mem| - 1
    ensures |r.mem| == |h.mem| + EvenUp(Max(n, CHUNKSIZE)) && r.limit == h.limit
    ensures Wf(r, bs', lists') && Allocated(r, bs', e) && !Allocated(h, bs, e) && n <= Size(r, e) <= n + BLOCKSIZE_MIN
    ensures KeepsAllocated(h, bs, r, bs', e)
    ensures NoAdjacentFreeBut(h1, bs1, e) && !FollowedByFree(h1, e) ==> NoAdjacentFree(r, bs')
  {
    assert e in {} + {|h.mem| - 1};
    r, bs', lists' := Place(h1, e, n, bs1, lists, {} + {|h.mem| - 1});
    PlacedNew(h, bs, n, h1, e, bs1, r, bs', lists');
    PlacedCoalesced(h1, bs1, e, n, r, bs');
  }

  /** What `place` leaves behind on the new block: the heap is whole again and only that block is new. */
  lemma PlacedNew(h: Heap, bs: seq<nat>, n: nat, h1: Heap, e: nat, bs1: seq<nat>, r: Heap, bs': seq<nat>,
                  lists': seq<seq<nat>>)
    requires e == |h.mem| - 1 && 1 <= |h.mem| && BLOCKSIZE_MIN <= n
    requires |h1.mem| == |h.mem| + EvenUp(Max(n, CHUNKSIZE)) && KeepsHeaders(h, h1, bs, e)
    requires forall x :: x in bs1 <==> x in bs || x == |h1.mem| - 1
    requires IsBlock(h1, bs1, e) && Size(h1, e) == EvenUp(Max(n, CHUNKSIZE))
    requires Inv(r, bs', lists', {} + {|h.mem| - 1} - {e}) && IsBlock(r, bs', e) && !IsFree(r, e)
    requires |r.mem| == |h1.mem| && KeepsHeaders(h1, r, bs1, e)
    requires Size(h1, e) - n <= BLOCKSIZE_MIN ==> Size(r, e) == Size(h1, e) && bs' == bs1
    requires Size(h1, e) - n > BLOCKSIZE_MIN ==> Size(r, e) == n && (forall x :: x in bs' <==> x in bs1 || x == e + n)
    ensures Wf(r, bs', lists') && Allocated(r, bs', e) && !Allocated(h, bs, e) && n <= Size(r, e) <= n + BLOCKSIZE_MIN
    ensures KeepsAllocated(h, bs, r, bs', e)
  {
    assert {} + {|h.mem| - 1} - {e} == {};
    KeepsAllocatedStep(h, h1, bs, bs1, bs, e, e);
    KeepsAllocatedStep(h1, r, bs1, bs', bs1, e, e);
    KeepsAllocatedTrans(h, h1, r, bs, bs1, bs', e, e);
  }

  // ---------------------------------------------------------------------
  // realloc
  // ---------------------------------------------------------------------

  /** `malloc(size)` answers `(void *)-1`: see `Malloc`. */
  ghost predicate MallocFails(h: Heap, lists: seq<seq<nat>>, size: nat)
    requires |lists| == CLASS_NUMBER
  {
    size > 0 && NoFit(h, lists, AdjustedWords(size)) && GrowFails(h, AdjustedWords(size))
  }

  /** Every block allocated in (r, bs') was already allocated in (h, bs). */
  ghost predicate NothingNew(h: Heap, bs: seq<nat>, r: Heap, bs': seq<nat>)
  {
    forall x :: Allocated(r, bs', x) ==> Allocated(h, bs, x)
  }

  /**
   * `realloc` as the source writes it. A zero size frees the block and
   * answers NULL; a NULL pointer is a plain `malloc`. Otherwise `malloc` is
   * called first, whatever the sizes. When the block must grow, the old
   * payload is copied to the new block and the old block freed; when
   * `malloc` answered `(void *)-1` that copy writes through `(void *)-1`
   * (`Fault`), as only NULL is checked. When the block is large enough it
   * is cut down in place by `place` and the block `malloc` just handed out
   * stays allocated with no pointer to it.
   */
  method ReallocAsWritten(h: Heap, oldptr: nat, size: nat, ghost bs: seq<nat>, ghost lists: seq<seq<nat>>)
    returns (r: Heap, res: Reply, ghost bs': seq<nat>, ghost lists': seq<seq<nat>>)
    requires Wf(h, bs, lists)
    requires oldptr == 0 || Allocated(h, bs, oldptr - 1)
    ensures res.Fault? ==> r == h
    ensures !res.Fault? ==> Wf(r, bs', lists')
    ensures size == 0 ==> res == NullReply && (oldptr != 0 ==> !Allocated(r, bs', oldptr - 1))
    ensures res.Fault? <==>
      oldptr != 0 && size > 0 && Size(h, oldptr - 1) < AdjustedWords(size) && MallocFails(h, lists, size)
    ensures oldptr != 0 && size > 0 && AdjustedWords(size) <= Size(h, oldptr - 1) ==>
      && res == Payload(oldptr) && Allocated(r, bs', oldptr - 1)
      && AdjustedWords(size) <= Size(r, oldptr - 1) <= AdjustedWords(size) + BLOCKSIZE_MIN
      && (!MallocFails(h, lists, size) ==> exists x :: Allocated(r, bs', x) && !Allocated(h, bs, x))
    ensures oldptr != 0 && size > 0 && Size(h, oldptr - 1) < AdjustedWords(size) && !MallocFails(h, lists, size) ==>
      && res.Payload? && 1 <= res.at && res.at - 1 != oldptr - 1 && Allocated(r, bs', res.at - 1) && !Allocated(h, bs, res.at - 1)
      && WSIZE * Size(r, res.at - 1) >= size + DSIZE && !Allocated(r, bs', oldptr - 1)
      && KeepsAllocated(h, bs, r, bs', oldptr - 1)
    ensures oldptr == 0 && size > 0 ==>
      && (res.MinusOne? || res.Payload?)
      && (res.MinusOne? <==> MallocFails(h, lists, size))
      && (res.MinusOne? ==> r == h)
      && (res.Payload? ==> 1 <= res.at && Served(h, bs, r, bs', res.at - 1, size))
    ensures res.Payload? ==> DoubleAligned(res.at)
  {
    if size == 0 {
      ghost var c;
      r, c, bs', lists' := Free(h, oldptr, bs, lists);
      res := NullReply;
      return;
    }
    if oldptr == 0 {
      r, res, bs', lists' := ReallocNull(h, size, bs, lists);
      return;
    }
    r, res, bs', lists' := ReallocBlockAsWritten(h, oldptr - 1, size, bs, lists);
  }

  /** `realloc(NULL, size)` with a size that is not 0: exactly `malloc(size)`. */
  method ReallocNull(h: Heap, size: nat, ghost bs: seq<nat>, ghost lists: seq<seq<nat>>)
    returns (r: Heap, res: Reply, ghost bs': seq<nat>, ghost lists': seq<seq<nat>>)
    requires Wf(h, bs, lists) && size > 0
    ensures Wf(r, bs', lists') && (res.MinusOne? || res.Payload?)
    ensures res.MinusOne? <==> MallocFails(h, lists, size)
    ensures res.MinusOne? ==> r == h
    ensures res.Payload? ==> 1 <= res.at && Served(h, bs, r, bs', res.at - 1, size) && DoubleAligned(res.at)
    ensures NoAdjacentFree(h, bs) ==> NoAdjacentFree(r, bs')
  {
    r, res, bs', lists' := Malloc(h, size, bs, lists);
  }

  /** `realloc` as written once `ptr` points into the allocated block b and the size is not 0. */
  method ReallocBlockAsWritten(h: Heap, b: nat, size: nat, ghost bs: seq<nat>, ghost lists: seq<seq<nat>>)
    returns (r: Heap, res: Reply, ghost bs': seq<nat>, ghost lists': seq<seq<nat>>)
    requires Wf(h, bs, lists) && Allocated(h, bs, b) && size > 0
    ensures res.Fault? ==> r == h
    ensures !res.Fault? ==> Wf(r, bs', lists')
    ensures res.Fault? <==> Size(h, b) < AdjustedWords(size) && MallocFails(h, lists, size)
    ensures AdjustedWords(size) <= Size(h, b) ==>
      && res == Payload(b + 1) && Allocated(r, bs', b)
      && AdjustedWords(size) <= Size(r, b) <= AdjustedWords(size) + BLOCKSIZE_MIN
      && (!MallocFails(h, lists, size) ==> exists x :: Allocated(r, bs', x) && !Allocated(h, bs, x))
    ensures Size(h, b) < AdjustedWords(size) && !MallocFails(h, lists, size) ==>
      && res.Payload? && 1 <= res.at && res.at - 1 != b && Allocated(r, bs', res.at - 1) && !Allocated(h, bs, res.at - 1)
      && WSIZE * Size(r, res.at - 1) >= size + DSIZE && !Allocated(r, bs', b)
      && KeepsAllocated(h, bs, r, bs', b)
    ensures res.Payload? ==> DoubleAligned(res.at)
  {
    var n := AdjustedWords(size);
    AdjustedWordsBounds(size, n);
    var h1, newptr, bs1, lists1 := Malloc(h, size, bs, lists);
    assert Allocated(h1, bs1, b) && Size(h1, b) == Size(h, b) by {
      if newptr.Payload? {
        assert newptr.at - 1 != b;
      }
    }
    if Size(h1, b) < n {
      r, res, bs', lists' := MoveAsWritten(h, b, size, bs, h1, newptr, bs1, lists1);
    } else {
      r, res, bs', lists' := CutAsWritten(h, b, size, bs, h1, newptr, bs1, lists1);
    }
  }

  /**
   * The in-place branch as written once `malloc` has answered `newptr`: b
   * is cut down by `place`, and a block `malloc` handed out stays
   * allocated.
   */
  method CutAsWritten(h: Heap, b: nat, size: nat, ghost bs: seq<nat>,
                      h1: Heap, newptr: Reply, ghost bs1: seq<nat>, ghost lists1: seq<seq<nat>>)
    returns (r: Heap, res: Reply, ghost bs': seq<nat>, ghost lists': seq<seq<nat>>)
    requires Wf(h1, bs1, lists1) && Allocated(h1, bs1, b) && size > 0 && AdjustedWords(size) <= Size(h1, b)
    requires newptr.Payload? ==> 1 <= newptr.at && Allocated(h1, bs1, newptr.at - 1) && !Allocated(h, bs, newptr.at - 1)
    requires newptr.Payload? ==> newptr.at - 1 != b
    ensures Wf(r, bs', lists') && res == Payload(b + 1) && Allocated(r, bs', b) && DoubleAligned(res.at)
    ensures AdjustedWords(size) <= Size(r, b) <= AdjustedWords(size) + BLOCKSIZE_MIN
    ensures newptr.Payload? ==> exists x :: Allocated(r, bs', x) && !Allocated(h, bs, x)
  {
    var n := AdjustedWords(size);
    AdjustedWordsBounds(size, n);
    r, bs', lists' := ShrinkAsWritten(h1, b, n, bs1, lists1);
    res := Payload(b + 1);
    PayloadAligned(h1, bs1, b);
    if newptr.Payload? {
      assert Allocated(r, bs', newptr.at - 1);
    }
  }

  /**
   * The moving branch of `realloc` after `malloc` answered `newptr`: the
   * old block is freed and `newptr` returned, unless `newptr` is
   * `(void *)-1`, which the copy then writes through.
   */
  method GrowAsWritten(h: Heap, b: nat, newptr: Reply, ghost bs: seq<nat>, ghost lists: seq<seq<nat>>)
    returns (r: Heap, res: Reply, ghost bs': seq<nat>, ghost lists': seq<seq<nat>>)
    requires Wf(h, bs, lists) && Allocated(h, bs, b) && !newptr.Fault?
    ensures res.Fault? <==> newptr.MinusOne?
    ensures res.Fault? ==> r == h
    ensures !res.Fault? ==> res == newptr && Wf(r, bs', lists') && !Allocated(r, bs', b)
    ensures !res.Fault? ==> KeepsAllocated(h, bs, r, bs', b)
  {
    if newptr.MinusOne? {
      r, res, bs', lists' := h, Fault, bs, lists;
    } else {
      ghost var c;
      r, c, bs', lists' := Free(h, b + 1, bs, lists);
      res := newptr;
    }
  }

  /** The moving branch as written once `malloc` has answered `newptr` for `size` bytes. */
  method MoveAsWritten(h: Heap, b: nat, size: nat, ghost bs: seq<nat>,
                       h1: Heap, newptr: Reply, ghost bs1: seq<nat>, ghost lists1: seq<seq<nat>>)
    returns (r: Heap, res: Reply, ghost bs': seq<nat>, ghost lists': seq<seq<nat>>)
    requires Wf(h1, bs1, lists1) && Allocated(h, bs, b) && Allocated(h1, bs1, b)
    requires newptr.MinusOne? || newptr.Payload?
    requires newptr.Payload? ==> 1 <= newptr.at && Served(h, bs, h1, bs1, newptr.at - 1, size) && DoubleAligned(newptr.at)
    ensures res.Fault? <==> newptr.MinusOne?
    ensures res.Fault? ==> r == h1
    ensures !res.Fault? ==> Wf(r, bs', lists')
    ensures newptr.Payload? ==>
      && res == newptr && res.at - 1 != b && Allocated(r, bs', res.at - 1) && !Allocated(h, bs, res.at - 1)
      && WSIZE * Size(r, res.at - 1) >= size + DSIZE && !Allocated(r, bs', b)
      && KeepsAllocated(h, bs, r, bs', b) && DoubleAligned(res.at)
  {
    r, res, bs', lists' := GrowAsWritten(h1, b, newptr, bs1, lists1);
    if newptr.Payload? {
      GrownAsWritten(h, bs, h1, bs1, r, bs', b, newptr.at - 1, size);
    }
  }

  /**
   * A grow as written whose `malloc` handed out nb: nb holds the request,
   * is new, and survives the `free` of the old block b with every other
   * allocation.
   */
  lemma GrownAsWritten(h: Heap, bs: seq<nat>, h1: Heap, bs1: seq<nat>, r: Heap, bs': seq<nat>, b: nat, nb: nat, size: nat)
    requires Allocated(h, bs, b) && Allocated(h1, bs1, nb) && !Allocated(h, bs, nb)
    requires WSIZE * Size(h1, nb) >= size + DSIZE
    requires KeepsAllocated(h, bs, h1, bs1, nb) && KeepsAllocated(h1, bs1, r, bs', b)
    ensures nb != b && Allocated(r, bs', nb) && WSIZE * Size(r, nb) >= size + DSIZE
    ensures KeepsAllocated(h, bs, r, bs', b)
  {
    KeepsAllocatedTrans(h, h1, r, bs, bs1, bs', nb, b);
  }

  /** The in-place branch of `realloc`: `place` on a block that is already allocated. */
  method ShrinkAsWritten(h: Heap, b: nat, n: nat, ghost bs: seq<nat>, ghost lists: seq<seq<nat>>)
    returns (r: Heap, ghost bs': seq<nat>, ghost lists': seq<seq<nat>>)
    requires Wf(h, bs, lists) && Allocated(h, bs, b) && BLOCKSIZE_MIN <= n <= Size(h, b) && n % 2 == 0
    ensures Wf(r, bs', lists') && |r.mem| == |h.mem| && r.limit == h.limit
    ensures Allocated(r, bs', b) && n <= Size(r, b) <= n + BLOCKSIZE_MIN
    ensures KeepsAllocated(h, bs, r, bs', b) && NothingNew(h, bs, r, bs')
    ensures NoAdjacentFree(h, bs) ==>
      (NoAdjacentFree(r, bs') <==> !(Size(h, b) - n > BLOCKSIZE_MIN && FollowedByFree(h, b)))
  {
    ListedClass(h, bs, lists);
    r, bs', lists' := Place(h, b, n, bs, lists, {});
    ShrinkPlaced(h, b, n, bs, r, bs', lists');
    ShrinkCoalesced(h, bs, b, n, r, bs');
  }

  /** What `place` leaves behind on an allocated block: the heap stays whole and nothing new is allocated. */
  lemma ShrinkPlaced(h: Heap, b: nat, n: nat, bs: seq<nat>, r: Heap, bs': seq<nat>, lists': seq<seq<nat>>)
    requires Allocated(h, bs, b) && BLOCKSIZE_MIN <= n <= Size(h, b)
    requires Inv(r, bs', lists', {} - {b}) && IsBlock(r, bs', b) && !IsFree(r, b)
    requires |r.mem| == |h.mem| && KeepsHeaders(h, r, bs, b)
    requires Size(h, b) - n <= BLOCKSIZE_MIN ==> Size(r, b) == Size(h, b) && bs' == bs
    requires Size(h, b) - n > BLOCKSIZE_MIN ==>
      && Size(r, b) == n && IsBlock(r, bs', b + n) && IsFree(r, b + n)
      && (forall x :: x in bs' <==> x in bs || x == b + n)
    ensures Wf(r, bs', lists') && Allocated(r, bs', b) && n <= Size(r, b) <= n + BLOCKSIZE_MIN
    ensures KeepsAllocated(h, bs, r, bs', b) && NothingNew(h, bs, r, bs')
  {
    assert {} - {b} == {};
    KeepsAllocatedStep(h, r, bs, bs', bs, b, b);
    assert forall x :: x in bs' && x !in bs ==> x < |r.mem| && IsFree(r, x);
    PlaceNothingNew(h, r, bs, bs', b);
  }

  /**
   * `place` on an allocated block b, as written, next to a coalesced heap:
   * the result stays coalesced exactly when b is not cut or the block
   * after b is allocated. Cutting b in front of a free block leaves two
   * free blocks side by side.
   */
  lemma ShrinkCoalesced(h: Heap, bs: seq<nat>, b: nat, n: nat, r: Heap, bs': seq<nat>)
    requires Layout(h, bs) && Allocated(h, bs, b) && BLOCKSIZE_MIN <= n
    requires |r.mem| == |h.mem| && KeepsHeaders(h, r, bs, b) && !IsFree(r, b)
    requires Size(h, b) - n <= BLOCKSIZE_MIN ==> Size(r, b) == Size(h, b) && bs' == bs
    requires Size(h, b) - n > BLOCKSIZE_MIN ==>
      && Size(r, b) == n && IsBlock(r, bs', b + n) && IsFree(r, b + n)
      && Size(r, b) + Size(r, b + n) == Size(h, b)
      && (forall x :: x in bs' <==> x in bs || x == b + n)
    ensures NoAdjacentFree(h, bs) ==>
      (NoAdjacentFree(r, bs') <==> !(Size(h, b) - n > BLOCKSIZE_MIN && FollowedByFree(h, b)))
  {
    if NoAdjacentFree(h, bs) {
      if Size(h, b) - n <= BLOCKSIZE_MIN {
        KeepsNoAdjacentFree(h, r, bs, b);
      } else if !FollowedByFree(h, b) {
        PlaceCoalesced(h, bs, b, r, bs');
      } else {
        var i := BlockIndex(h, bs, b);
        LayoutBounds(h, bs, i + 1);
        var z := bs[i + 1];
        assert z == b + Size(h, b) && z != b;
        assert r.mem[z] == h.mem[z];
        assert FollowedByFree(r, b + n);
        assert !Coalesced(r, b + n);
      }
    }
  }

  /**
   * The in-place branch of `realloc` with the rest released the way `free`
   * releases a block: b is cut to n words when the rest exceeds a minimum
   * block, and the rest is coalesced with a free block after it before it
   * goes onto its list. The outcome for b and the other allocations is
   * that of `ShrinkAsWritten`, and a coalesced heap stays coalesced.
   */
  method Shrink(h: Heap, b: nat, n: nat, ghost bs: seq<nat>, ghost lists: seq<seq<nat>>)
    returns (r: Heap, ghost bs': seq<nat>, ghost lists': seq<seq<nat>>)
    requires Wf(h, bs, lists) && Allocated(h, bs, b) && BLOCKSIZE_MIN <= n <= Size(h, b) && n % 2 == 0
    ensures Wf(r, bs', lists') && |r.mem| == |h.mem| && r.limit == h.limit
    ensures Allocated(r, bs', b) && n <= Size(r, b) <= n + BLOCKSIZE_MIN
    ensures Size(h, b) - n <= BLOCKSIZE_MIN ==> r == h && bs' == bs && lists' == lists
    ensures KeepsAllocated(h, bs, r, bs', b) && NothingNew(h, bs, r, bs')
    ensures NoAdjacentFree(h, bs) ==> NoAdjacentFree(r, bs')
  {
    if Size(h, b) - n <= BLOCKSIZE_MIN {
      r, bs', lists' := h, bs, lists;
    } else {
      r, bs', lists' := ShrinkCut(h, b, n, bs, lists);
    }
  }

  /** The cutting branch of `Shrink`: cut b to n words, then `coalesce` and `add_to_free_list` on the rest. */
  method ShrinkCut(h: Heap, b: nat, n: nat, ghost bs: seq<nat>, ghost lists: seq<seq<nat>>)
    returns (r: Heap, ghost bs': seq<nat>, ghost lists': seq<seq<nat>>)
    requires Wf(h, bs, lists) && Allocated(h, bs, b) && BLOCKSIZE_MIN <= n && Size(h, b) - n > BLOCKSIZE_MIN && n % 2 == 0
    ensures Wf(r, bs', lists') && |r.mem| == |h.mem| && r.limit == h.limit
    ensures Allocated(r, bs', b) && Size(r, b) == n
    ensures KeepsAllocated(h, bs, r, bs', b) && NothingNew(h, bs, r, bs')
    ensures NoAdjacentFree(h, bs) ==> NoAdjacentFree(r, bs')
  {
    var r1;
    ghost var bs1;
    r1, bs1 := CutFront(h, b, n, bs, lists);
    ghost var c;
    r, c, bs', lists' := Release(r1, b + n, bs1, lists, {b + n});
    ShrinkKeeps(h, bs, b, n, r1, bs1, r, bs');
  }

  /**
   * The cut of `place` on the allocated block b, before the rest is
   * listed: b keeps n words and stays allocated, and the rest is a free
   * block in transit right after it. A heap coalesced before is coalesced
   * except around the rest.
   */
  method CutFront(h: Heap, b: nat, n: nat, ghost bs: seq<nat>, ghost lists: seq<seq<nat>>)
    returns (r: Heap, ghost bs': seq<nat>)
    requires Wf(h, bs, lists) && Allocated(h, bs, b) && BLOCKSIZE_MIN <= n && Size(h, b) - n > BLOCKSIZE_MIN && n % 2 == 0
    ensures Inv(r, bs', lists, {b + n}) && |r.mem| == |h.mem| && r.limit == h.limit
    ensures KeepsHeaders(h, r, bs, b) && Size(r, b) == n && !IsFree(r, b) && IsBlock(r, bs', b)
    ensures IsBlock(r, bs', b + n) && IsFree(r, b + n) && b + n !in bs
    ensures forall x :: x in bs' <==> x in bs || x == b + n
    ensures NoAdjacentFree(h, bs) ==> NoAdjacentFreeBut(r, bs', b + n)
  {
    ListedClass(h, bs, lists);
    BlockFacts(h, bs, b);
    r, bs' := Split(h, b, n, bs, lists, {});
    assert {} - {b} + {b + n} == {b + n};
    if NoAdjacentFree(h, bs) {
      CutAround(h, bs, b, r, bs');
    }
  }

  /** Cutting b and releasing the rest at b + n keeps b with n words and every other allocation, and allocates nothing new. */
  lemma ShrinkKeeps(h: Heap, bs: seq<nat>, b: nat, n: nat, r1: Heap, bs1: seq<nat>, r: Heap, bs': seq<nat>)
    requires Allocated(h, bs, b) && |r1.mem| == |h.mem| && KeepsHeaders(h, r1, bs, b)
    requires Size(r1, b) == n && !IsFree(r1, b) && IsBlock(r1, bs1, b)
    requires IsBlock(r1, bs1, b + n) && IsFree(r1, b + n) && b + n !in bs
    requires forall x :: x in bs1 <==> x in bs || x == b + n
    requires KeepsAllocated(r1, bs1, r, bs', b + n) && NothingNew(r1, bs1, r, bs')
    ensures Allocated(r, bs', b) && Size(r, b) == n
    ensures KeepsAllocated(h, bs, r, bs', b) && NothingNew(h, bs, r, bs')
  {
    assert Allocated(r1, bs1, b);
    KeepsAllocatedStep(h, r1, bs, bs1, bs, b, b);
    PlaceNothingNew(h, r1, bs, bs1, b);
  }

  /** A step that keeps every header but b's, adds only free blocks, and leaves b allocated allocates nothing new. */
  lemma PlaceNothingNew(h: Heap, r: Heap, bs: seq<nat>, bs': seq<nat>, b: nat)
    requires KeepsHeaders(h, r, bs, b) && |r.mem| == |h.mem| && Allocated(h, bs, b)
    requires forall x :: x in bs' && x !in bs ==> x < |r.mem| && IsFree(r, x)
    ensures NothingNew(h, bs, r, bs')
  {
    forall x | Allocated(r, bs', x)
      ensures Allocated(h, bs, x)
    {
      if x != b {
        var i :| 0 <= i < |bs| && bs[i] == x;
      }
    }
  }

  /**
   * `realloc` as its comment describes it: `malloc` only when the block must
   * grow, and a failed `malloc` reported as `(void *)-1` with the old block
   * untouched. It never writes through `(void *)-1`, keeps every other
   * allocation, and cutting a block down in place allocates nothing new.
   */
  method Realloc(h: Heap, oldptr: nat, size: nat, ghost bs: seq<nat>, ghost lists: seq<seq<nat>>)
    returns (r: Heap, res: Reply, ghost bs': seq<nat>, ghost lists': seq<seq<nat>>)
    requires Wf(h, bs, lists)
    requires oldptr == 0 || Allocated(h, bs, oldptr - 1)
    ensures Wf(r, bs', lists') && !res.Fault?
    ensures size == 0 ==> res == NullReply && (oldptr != 0 ==> !Allocated(r, bs', oldptr - 1))
    ensures oldptr != 0 ==> KeepsAllocated(h, bs, r, bs', oldptr - 1)
    ensures oldptr != 0 && size > 0 && Size(h, oldptr - 1) < AdjustedWords(size) ==>
      if MallocFails(h, lists, size) then res == MinusOne && r == h
      else
        && res.Payload? && 1 <= res.at && res.at - 1 != oldptr - 1 && Allocated(r, bs', res.at - 1) && !Allocated(h, bs, res.at - 1)
        && WSIZE * Size(r, res.at - 1) >= size + DSIZE && !Allocated(r, bs', oldptr - 1)
    ensures oldptr != 0 && size > 0 && AdjustedWords(size) <= Size(h, oldptr - 1) ==>
      && res == Payload(oldptr) && Allocated(r, bs', oldptr - 1)
      && AdjustedWords(size) <= Size(r, oldptr - 1) <= AdjustedWords(size) + BLOCKSIZE_MIN
      && NothingNew(h, bs, r, bs')
    ensures oldptr == 0 && size > 0 ==>
      && (res.MinusOne? || res.Payload?)
      && (res.MinusOne? <==> MallocFails(h, lists, size))
      && (res.MinusOne? ==> r == h)
      && (res.Payload? ==> 1 <= res.at && Served(h, bs, r, bs', res.at - 1, size))
    ensures res.Payload? ==> DoubleAligned(res.at)
    ensures NoAdjacentFree(h, bs) ==> NoAdjacentFree(r, bs')
  {
    if size == 0 {
      ghost var c;
      r, c, bs', lists' := Free(h, oldptr, bs, lists);
      res := NullReply;
      return;
    }
    if oldptr == 0 {
      r, res, bs', lists' := ReallocNull(h, size, bs, lists);
      return;
    }
    r, res, bs', lists' := ReallocBlock(h, oldptr - 1, size, bs, lists);
  }

  /** The corrected `realloc` once `ptr` points into the allocated block b and the size is not 0. */
  method ReallocBlock(h: Heap, b: nat, size: nat, ghost bs: seq<nat>, ghost lists: seq<seq<nat>>)
    returns (r: Heap, res: Reply, ghost bs': seq<nat>, ghost lists': seq<seq<nat>>)
    requires Wf(h, bs, lists) && Allocated(h, bs, b) && size > 0
    ensures Wf(r, bs', lists') && !res.Fault? && KeepsAllocated(h, bs, r, bs', b)
    ensures Size(h, b) < AdjustedWords(size) ==>
      if MallocFails(h, lists, size) then res == MinusOne && r == h
      else
        && res.Payload? && 1 <= res.at && res.at - 1 != b && Allocated(r, bs', res.at - 1) && !Allocated(h, bs, res.at - 1)
        && WSIZE * Size(r, res.at - 1) >= size + DSIZE && !Allocated(r, bs', b)
    ensures AdjustedWords(size) <= Size(h, b) ==>
      && res == Payload(b + 1) && Allocated(r, bs', b)
      && AdjustedWords(size) <= Size(r, b) <= AdjustedWords(size) + BLOCKSIZE_MIN
      && NothingNew(h, bs, r, bs')
    ensures res.Payload? ==> DoubleAligned(res.at)
    ensures NoAdjacentFree(h, bs) ==> NoAdjacentFree(r, bs')
  {
    var n := AdjustedWords(size);
    AdjustedWordsBounds(size, n);
    if Size(h, b) < n {
      r, res, bs', lists' := Grow(h, b, size, bs, lists);
    } else {
      r, bs', lists' := Shrink(h, b, n, bs, lists);
      res := Payload(b + 1);
      PayloadAligned(h, bs, b);
    }
  }

  /** The moving branch of the corrected `realloc`: `malloc`, then free the old block unless `malloc` failed. */
  method Grow(h: Heap, b: nat, size: nat, ghost bs: seq<nat>, ghost lists: seq<seq<nat>>)
    returns (r: Heap, res: Reply, ghost bs': seq<nat>, ghost lists': seq<seq<nat>>)
    requires Wf(h, bs, lists) && Allocated(h, bs, b) && size > 0
    ensures Wf(r, bs', lists') && KeepsAllocated(h, bs, r, bs', b)
    ensures res == MinusOne <==> MallocFails(h, lists, size)
    ensures res == MinusOne ==> r == h
    ensures res != MinusOne ==>
      && res.Payload? && 1 <= res.at && res.at - 1 != b && Allocated(r, bs', res.at - 1) && !Allocated(h, bs, res.at - 1)
      && WSIZE * Size(r, res.at - 1) >= size + DSIZE && !Allocated(r, bs', b)
    ensures res.Payload? ==> DoubleAligned(res.at)
    ensures NoAdjacentFree(h, bs) ==> NoAdjacentFree(r, bs')
  {
    var h1, newptr, bs1, lists1 := Malloc(h, size, bs, lists);
    if newptr.MinusOne? {
      r, res, bs', lists' := h, MinusOne, bs, lists;
      return;
    }
    r, res, bs', lists' := GrowTail(h, b, size, bs, h1, newptr, bs1, lists1);
  }

  /** The rest of the moving branch once `malloc` has handed out the new block: the old one is freed. */
  method GrowTail(h: Heap, b: nat, size: nat, ghost bs: seq<nat>,
                  h1: Heap, newptr: Reply, ghost bs1: seq<nat>, ghost lists1: seq<seq<nat>>)
    returns (r: Heap, res: Reply, ghost bs': seq<nat>, ghost lists': seq<seq<nat>>)
    requires Wf(h1, bs1, lists1) && newptr.Payload? && 1 <= newptr.at && Allocated(h, bs, b)
    requires Allocated(h1, bs1, newptr.at - 1) && !Allocated(h, bs, newptr.at - 1)
    requires WSIZE * Size(h1, newptr.at - 1) >= size + DSIZE
    requires KeepsAllocated(h, bs, h1, bs1, newptr.at - 1)
    ensures Wf(r, bs', lists') && KeepsAllocated(h, bs, r, bs', b)
    ensures res == newptr && res.at - 1 != b && Allocated(r, bs', res.at - 1) && !Allocated(h, bs, res.at - 1)
    ensures WSIZE * Size(r, res.at - 1) >= size + DSIZE && !Allocated(r, bs', b)
    ensures NoAdjacentFree(h1, bs1) ==> NoAdjacentFree(r, bs')
  {
    ghost var nb := newptr.at - 1;
    assert nb != b && Allocated(h1, bs1, b);
    r, bs', lists' := FreeOld(h1, b, nb, bs1, lists1);
    res := newptr;
    assert res.at - 1 == nb;
    assert KeepsAllocated(h, bs, r, bs', b) by {
      KeepsAllocatedTrans(h, h1, r, bs, bs1, bs', nb, b);
    }
  }

  /** `free` of the old block once the new block nb is allocated: nb stays allocated with its size. */
  method FreeOld(h: Heap, b: nat, ghost nb: nat, ghost bs: seq<nat>, ghost lists: seq<seq<nat>>)
    returns (r: Heap, ghost bs': seq<nat>, ghost lists': seq<seq<nat>>)
    requires Wf(h, bs, lists) && Allocated(h, bs, b) && Allocated(h, bs, nb) && nb != b
    ensures Wf(r, bs', lists') && !Allocated(r, bs', b) && KeepsAllocated(h, bs, r, bs', b)
    ensures Allocated(r, bs', nb) && Size(r, nb) == Size(h, nb)
    ensures NoAdjacentFree(h, bs) ==> NoAdjacentFree(r, bs')
  {
    ghost var c;
    r, c, bs', lists' := Free(h, b + 1, bs, lists);
  }

  // ---------------------------------------------------------------------
  // calloc
  // ---------------------------------------------------------------------

  /** `calloc` raises an element size below the minimum to 4 bytes. */
  function ElementSize(size: nat): (e: nat)
    ensures e >= BLOCKSIZE_MIN && (size >= BLOCKSIZE_MIN ==> e == size)
  {
    if size < BLOCKSIZE_MIN then BLOCKSIZE_MIN else size
  }

  /** The byte count `calloc` hands to `malloc`: the 64-bit product, which wraps. */
  function CallocBytesAsWritten(nmemb: nat, size: nat): (n: nat)
    ensures n < SIZE_T_LIMIT && (nmemb * ElementSize(size) < SIZE_T_LIMIT ==> n == nmemb * ElementSize(size))
  {
    (nmemb * ElementSize(size)) % SIZE_T_LIMIT
  }

  /**
   * 2^62 + 1 elements of 4 bytes wrap to a 4-byte request: the block
   * `calloc` returns holds 4 bytes of the 2^64 + 4 asked for.
   */
  lemma CallocWraps()
    ensures CallocBytesAsWritten(0x4000_0000_0000_0001, 4) == 4
    ensures 0x4000_0000_0000_0001 * ElementSize(4) >= SIZE_T_LIMIT
  {
    assert 0x4000_0000_0000_0001 * 4 == SIZE_T_LIMIT + 4;
  }

  /**
   * `calloc` as written: `malloc` of the wrapped product. The payload holds
   * the wrapped byte count, which can be far less than the elements.
   */
  method CallocAsWritten(h: Heap, nmemb: nat, size: nat, ghost bs: seq<nat>, ghost lists: seq<seq<nat>>)
    returns (r: Heap, res: Reply, ghost bs': seq<nat>, ghost lists': seq<seq<nat>>)
    requires Wf(h, bs, lists)
    ensures Wf(r, bs', lists') && !res.Fault?
    ensures res.NullReply? <==> CallocBytesAsWritten(nmemb, size) == 0
    ensures res.Payload? ==>
      1 <= res.at && Allocated(r, bs', res.at - 1) && WSIZE * Size(r, res.at - 1) >= CallocBytesAsWritten(nmemb, size) + DSIZE
    ensures res.Payload? ==> DoubleAligned(res.at)
    ensures NoAdjacentFree(h, bs) ==> NoAdjacentFree(r, bs')
  {
    r, res, bs', lists' := Malloc(h, CallocBytesAsWritten(nmemb, size), bs, lists);
  }

  /**
   * `calloc` with the overflow check the C library promises: a product
   * that does not fit a `size_t` gets NULL and changes nothing; otherwise
   * the payload holds every element.
   */
  method Calloc(h: Heap, nmemb: nat, size: nat, ghost bs: seq<nat>, ghost lists: seq<seq<nat>>)
    returns (r: Heap, res: Reply, ghost bs': seq<nat>, ghost lists': seq<seq<nat>>)
    requires Wf(h, bs, lists)
    ensures Wf(r, bs', lists') && !res.Fault?
    ensures res.NullReply? <==> nmemb == 0 || nmemb * ElementSize(size) >= SIZE_T_LIMIT
    ensures res.NullReply? || res.MinusOne? ==> r == h
    ensures res.Payload? ==>
      && 1 <= res.at && Allocated(r, bs', res.at - 1) && !Allocated(h, bs, res.at - 1)
      && WSIZE * Size(r, res.at - 1) >= nmemb * ElementSize(size) + DSIZE
      && KeepsAllocated(h, bs, r, bs', res.at - 1)
    ensures res.Payload? ==> DoubleAligned(res.at)
    ensures NoAdjacentFree(h, bs) ==> NoAdjacentFree(r, bs')
  {
    var bytes := nmemb * ElementSize(size);
    if bytes >= SIZE_T_LIMIT {
      r, res, bs', lists' := h, NullReply, bs, lists;
      return;
    }
    assert bytes == 0 <==> nmemb == 0 by {
      if nmemb > 0 {
        assert bytes == (nmemb - 1) * ElementSize(size) + ElementSize(size);
      }
    }
    r, res, bs', lists' := Malloc(h, bytes, bs, lists);
  }
}

