/**
 * Marking and splitting blocks (Project/MallocLab/mm.c): `block_mark` on a
 * block that is on no free list, and the split that `place` performs when
 * the remainder is larger than a minimum block: an allocated front and a
 * free remainder in transit. `MmAlloc.Place` puts the two together.
 */
module MmPlace {
  import opened MmCodec
  import opened MmHeap
  import opened MmLists
  import opened Seqs

  // ---------------------------------------------------------------------
  // block_mark on an unlisted block
  // ---------------------------------------------------------------------

  /**
   * Marking a block that is on no list keeps the heap coherent: a block
   * marked free joins the transit set, one marked allocated leaves it, and
   * no other header changes.
   */
  lemma MarkInv(h: Heap, bs: seq<nat>, lists: seq<seq<nat>>, ex: set<nat>, b: nat, free: bool)
    requires Inv(h, bs, lists, ex) && IsBlock(h, bs, b) && b !in lists[GetClassNo(Size(h, b))]
    ensures Spans(h, b)
    ensures var r := BlockMark(h, b, free);
      && Inv(r, bs, lists, if free then ex + {b} else ex - {b})
      && Size(r, b) == Size(h, b) && IsFree(r, b) == free && KeepsHeaders(h, r, bs, b)
  {
    BlockFacts(h, bs, b);
    var r := BlockMark(h, b, free);
    assert forall j :: 0 <= j < |h.mem| && Outside(j, b, Size(h, b)) ==> r.mem[j] == h.mem[j];
    InsideChange(h, bs, lists, b, r);
    MarkCoherence(h, bs, lists, ex, b, free, r);
  }

  /**
   * A change confined to an unlisted block that keeps its size and matching
   * tags keeps the layout, the lists and every other header.
   */
  lemma InsideChange(h: Heap, bs: seq<nat>, lists: seq<seq<nat>>, b: nat, r: Heap)
    requires Layout(h, bs) && FreeLists(h, bs, lists) && IsBlock(h, bs, b) && BlockOk(h, b)
    requires b !in lists[GetClassNo(Size(h, b))]
    requires Sized(r) && r.seg == h.seg && |r.mem| == |h.mem|
    requires forall j :: 0 <= j < |h.mem| && Outside(j, b, Size(h, b)) ==> r.mem[j] == h.mem[j]
    requires Size(r, b) == Size(h, b) && r.mem[b + Size(h, b) - 1] == r.mem[b]
    ensures Layout(r, bs) && FreeLists(r, bs, lists) && KeepsHeaders(h, r, bs, b)
  {
    LayoutFrame(h, r, bs, b);
    ListedOutside(h, bs, lists, b);
    ListsKeep(h, bs, lists, r, bs);
  }

  lemma MarkCoherence(h: Heap, bs: seq<nat>, lists: seq<seq<nat>>, ex: set<nat>, b: nat, free: bool, r: Heap)
    requires Inv(h, bs, lists, ex) && IsBlock(h, bs, b) && b !in lists[GetClassNo(Size(h, b))]
    requires Layout(r, bs) && FreeLists(r, bs, lists) && KeepsHeaders(h, r, bs, b)
    requires Size(r, b) == Size(h, b) && IsFree(r, b) == free
    ensures Inv(r, bs, lists, if free then ex + {b} else ex - {b})
  {
    var ex' := if free then ex + {b} else ex - {b};
    forall i | 0 <= i < |bs| - 1 && bs[i] !in ex' && IsFree(r, bs[i])
      ensures bs[i] in lists[GetClassNo(Size(r, bs[i]))]
    {
      assert bs[i] != b;
      assert r.mem[bs[i]] == h.mem[bs[i]];
    }
    forall x | x in ex'
      ensures IsBlock(r, bs, x) && x !in lists[GetClassNo(Size(r, x))]
    {
      if x != b {
        var i := BlockIndex(h, bs, x);
        assert r.mem[x] == h.mem[x];
      }
    }
  }

  // ---------------------------------------------------------------------
  // Splitting
  // ---------------------------------------------------------------------

  /** `place`'s split branch applies: the remainder exceeds the minimum block. */
  predicate CanSplit(h: Heap, b: nat, n: nat)
  {
    b < |h.mem| && 1 <= n && Size(h, b) - n > BLOCKSIZE_MIN && b + Size(h, b) <= |h.mem|
  }

  /**
   * The split branch of `place` before the remainder is listed: n-word tags
   * for the front, `init_block` for the remainder, and the front marked
   * allocated.
   */
  function SplitBlock(h: Heap, b: nat, n: nat): (r: Heap)
    requires CanSplit(h, b, n)
    ensures |r.mem| == |h.mem| && r.seg == h.seg && r.limit == h.limit
  {
    var total := Size(h, b);
    RawSize(n);
    var h1 := Put(h, b, n);
    var h2 := Put(h1, b + n - 1, n);
    var h3 := InitBlock(h2, b + n, total - n);
    assert h3.mem[b] == n;
    BlockMark(h3, b, false)
  }

  /**
   * What splitting leaves: an allocated n-word block at b with matching
   * tags, a free block of the remaining words right after it with matching
   * tags and NULL links, and every word outside the old block untouched.
   */
  predicate Splitted(h: Heap, b: nat, n: nat, r: Heap)
    requires CanSplit(h, b, n)
  {
    var total, nb := Size(h, b), b + n;
    && |r.mem| == |h.mem| && r.seg == h.seg && r.limit == h.limit
    && Size(r, b) == n && !IsFree(r, b) && r.mem[b + n - 1] == r.mem[b]
    && Size(r, nb) == total - n && IsFree(r, nb) && r.mem[b + total - 1] == r.mem[nb]
    && PredOf(r, nb) == 0 && SuccOf(r, nb) == 0
    && forall j :: 0 <= j < |h.mem| && Outside(j, b, total) ==> r.mem[j] == h.mem[j]
  }

  lemma SplitBlockEffect(h: Heap, b: nat, n: nat)
    requires CanSplit(h, b, n)
    ensures Splitted(h, b, n, SplitBlock(h, b, n))
  {
    var total := Size(h, b);
    RawSize(n);
    var h1 := Put(h, b, n);
    var h2 := Put(h1, b + n - 1, n);
    var h3 := InitBlock(h2, b + n, total - n);
    assert h3.mem[b] == n;
    var r := BlockMark(h3, b, false);
    assert r.mem[b + n] == h3.mem[b + n];
    assert r.mem[b + total - 1] == h3.mem[b + total - 1];
    assert r.mem[b + n + 1] == h3.mem[b + n + 1];
    assert r.mem[b + n + 2] == h3.mem[b + n + 2];
  }

  /** The block sequence after splitting b: the remainder follows b. */
  function SplitBlocks(bs: seq<nat>, b: nat, n: nat): (bs': seq<nat>)
    requires b in bs && IndexOf(bs, b) < |bs| - 1
    ensures Inserted(bs, IndexOf(bs, b) + 1, b + n, bs')
  {
    InsertAt(bs, IndexOf(bs, b) + 1, b + n)
  }

  /** Splitting a block of the layout yields the layout with the remainder inserted after it. */
  lemma SplitLayout(h: Heap, bs: seq<nat>, b: nat, n: nat, r: Heap)
    requires Layout(h, bs) && IsBlock(h, bs, b) && CanSplit(h, b, n)
    requires n >= BLOCKSIZE_MIN && n % 2 == 0 && Splitted(h, b, n, r)
    ensures IndexOf(bs, b) < |bs| - 1
    ensures Layout(r, SplitBlocks(bs, b, n)) && KeepsHeaders(h, r, bs, b)
  {
    BlockFacts(h, bs, b);
    var i := IndexOf(bs, b);
    OthersKept(h, r, bs, b);
    forall k | 0 <= k < |bs| && k != i
      ensures bs[k] != b
    {
      if k < i {
        LayoutOrdered(h, bs, k, i);
      } else {
        LayoutOrdered(h, bs, i, k);
      }
    }
    SplitLayoutAt(h, bs, b, n, r, i, SplitBlocks(bs, b, n));
  }

  lemma SplitLayoutAt(h: Heap, bs: seq<nat>, b: nat, n: nat, r: Heap, i: nat, bs': seq<nat>)
    requires Layout(h, bs) && i < |bs| - 1 && bs[i] == b && CanSplit(h, b, n)
    requires n >= BLOCKSIZE_MIN && n % 2 == 0 && Splitted(h, b, n, r)
    requires forall k :: 0 <= k < |bs| - 1 && k != i ==> BlockOk(r, bs[k]) && Size(r, bs[k]) == Size(h, bs[k])
    requires r.mem[PROLOGUE] == h.mem[PROLOGUE] && r.mem[PROLOGUE + 1] == h.mem[PROLOGUE + 1]
    requires r.mem[|h.mem| - 1] == h.mem[|h.mem| - 1]
    requires Inserted(bs, i + 1, b + n, bs')
    ensures Layout(r, bs')
  {
    SplitHalvesOk(h, bs, b, n, r, i);
    SplitBlocksOk(r, bs, b, i, b + n, bs');
    SplitContiguous(h, bs, b, n, r, i, bs');
    assert bs'[0] == bs[0];
    assert bs'[|bs'| - 1] == bs[|bs| - 1];
  }

  lemma SplitHalvesOk(h: Heap, bs: seq<nat>, b: nat, n: nat, r: Heap, i: nat)
    requires Layout(h, bs) && i < |bs| - 1 && bs[i] == b && CanSplit(h, b, n)
    requires n >= BLOCKSIZE_MIN && n % 2 == 0 && Splitted(h, b, n, r)
    ensures BlockOk(r, b) && BlockOk(r, b + n)
  {
    assert BlockOk(h, bs[i]);
    assert bs[i + 1] == bs[i] + Size(h, bs[i]);
  }

  lemma SplitBlocksOk(r: Heap, bs: seq<nat>, b: nat, i: nat, nb: nat, bs': seq<nat>)
    requires i < |bs| - 1 && bs[i] == b && BlockOk(r, b) && BlockOk(r, nb)
    requires forall k :: 0 <= k < |bs| - 1 && k != i ==> BlockOk(r, bs[k])
    requires Inserted(bs, i + 1, nb, bs')
    ensures forall k :: 0 <= k < |bs'| - 1 ==> BlockOk(r, bs'[k])
  {
    forall k | 0 <= k < |bs'| - 1
      ensures BlockOk(r, bs'[k])
    {
      if k < i {
        assert bs'[k] == bs[k];
      } else if k == i {
        assert bs'[k] == b;
      } else if k > i + 1 {
        assert bs'[k] == bs[k - 1];
      }
    }
  }

  lemma SplitContiguous(h: Heap, bs: seq<nat>, b: nat, n: nat, r: Heap, i: nat, bs': seq<nat>)
    requires i < |bs| - 1 && bs[i] == b && |r.mem| == |h.mem|
    requires forall k :: 0 <= k < |bs| ==> bs[k] < |h.mem|
    requires forall k, j :: 0 <= k < |bs| - 1 && j == k + 1 ==> bs[j] == bs[k] + Size(h, bs[k])
    requires b + n < |r.mem| && Size(r, b) == n && bs[i + 1] == b + n + Size(r, b + n)
    requires forall k :: 0 <= k < |bs| - 1 && k != i ==> Size(r, bs[k]) == Size(h, bs[k])
    requires Inserted(bs, i + 1, b + n, bs')
    ensures forall k, j :: 0 <= k < |bs'| - 1 && j == k + 1 ==> bs'[j] == bs'[k] + Size(r, bs'[k])
  {
    forall k, j | 0 <= k < |bs'| - 1 && j == k + 1
      ensures bs'[j] == bs'[k] + Size(r, bs'[k])
    {
      if k < i {
        assert bs'[k] == bs[k] && bs'[j] == bs[k + 1];
        assert bs[k + 1] == bs[k] + Size(h, bs[k]);
      } else if k == i {
        assert bs'[k] == b && bs'[j] == b + n;
      } else if k == i + 1 {
        assert bs'[k] == b + n && bs'[j] == bs[i + 1];
      } else {
        assert bs'[k] == bs[k - 1] && bs'[j] == bs[k];
        assert bs[k] == bs[k - 1] + Size(h, bs[k - 1]);
      }
    }
  }

  /**
   * Splitting a block that is on no list keeps the heap coherent: the
   * front is allocated with n words, the remainder is a free block in
   * transit, and no other header changes.
   */
  lemma SplitInv(h: Heap, bs: seq<nat>, lists: seq<seq<nat>>, ex: set<nat>, b: nat, n: nat)
    requires Inv(h, bs, lists, ex) && IsBlock(h, bs, b) && b !in lists[GetClassNo(Size(h, b))]
    requires CanSplit(h, b, n) && n >= BLOCKSIZE_MIN && n % 2 == 0
    ensures IndexOf(bs, b) < |bs| - 1
    ensures var r, nb := SplitBlock(h, b, n), b + n;
      && Inv(r, SplitBlocks(bs, b, n), lists, ex - {b} + {nb})
      && Size(r, b) == n && !IsFree(r, b) && Size(r, nb) == Size(h, b) - n && IsFree(r, nb)
      && KeepsHeaders(h, r, bs, b)
  {
    var r := SplitBlock(h, b, n);
    SplitBlockEffect(h, b, n);
    SplitLayout(h, bs, b, n, r);
    SplitLists(h, bs, lists, ex, b, n, r);
  }

  /** Where the two halves of a split sit in the new block sequence. */
  lemma SplitMembers(h: Heap, bs: seq<nat>, b: nat, n: nat)
    requires Layout(h, bs) && IsBlock(h, bs, b) && CanSplit(h, b, n) && n >= BLOCKSIZE_MIN
    ensures IndexOf(bs, b) < |bs| - 1 && b + n + 1 < |h.mem|
    ensures b in SplitBlocks(bs, b, n) && b + n in SplitBlocks(bs, b, n) && b + n !in bs
    ensures forall x :: x in SplitBlocks(bs, b, n) <==> x in bs || x == b + n
  {
    BlockFacts(h, bs, b);
    InsideNotBlock(h, bs, b, b + n);
    InsertedMembers(bs, IndexOf(bs, b) + 1, b + n, SplitBlocks(bs, b, n));
  }

  /** The lists, the free blocks and the transit set after a split. */
  lemma SplitLists(h: Heap, bs: seq<nat>, lists: seq<seq<nat>>, ex: set<nat>, b: nat, n: nat, r: Heap)
    requires Inv(h, bs, lists, ex) && IsBlock(h, bs, b) && b !in lists[GetClassNo(Size(h, b))]
    requires CanSplit(h, b, n) && Splitted(h, b, n, r)
    requires IndexOf(bs, b) < |bs| - 1 && Layout(r, SplitBlocks(bs, b, n)) && KeepsHeaders(h, r, bs, b)
    ensures var bs', ex' := SplitBlocks(bs, b, n), ex - {b} + {b + n};
      && FreeLists(r, bs', lists)
      && (forall k :: 0 <= k < |bs'| - 1 && bs'[k] !in ex' && IsFree(r, bs'[k]) ==>
            bs'[k] in lists[GetClassNo(Size(r, bs'[k]))])
      && (forall x :: x in ex' ==> IsBlock(r, bs', x) && x !in lists[GetClassNo(Size(r, x))])
  {
    var nb := b + n;
    var i := IndexOf(bs, b);
    var bs' := SplitBlocks(bs, b, n);
    BlockFacts(h, bs, b);
    InsideNotBlock(h, bs, b, nb);
    OnlyAt(h, bs, i);
    InsertedKeeps(bs, i + 1, nb, bs');
    ListedOutside(h, bs, lists, b);
    ListsKeep(h, bs, lists, r, bs');
    SplitCovers(h, bs, lists, ex, b, n, r, i, bs');
    SplitTransit(h, bs, lists, ex, b, n, r, bs');
  }

  /** After a split, every free block outside the transit set is still listed. */
  lemma SplitCovers(h: Heap, bs: seq<nat>, lists: seq<seq<nat>>, ex: set<nat>, b: nat, n: nat, r: Heap,
                    i: nat, bs': seq<nat>)
    requires Inv(h, bs, lists, ex) && i < |bs| - 1 && bs[i] == b && CanSplit(h, b, n) && Splitted(h, b, n, r)
    requires forall k :: 0 <= k < |bs| && k != i ==> bs[k] != b
    requires KeepsHeaders(h, r, bs, b) && b + n !in bs
    requires Inserted(bs, i + 1, b + n, bs') && Layout(r, bs')
    ensures forall k :: 0 <= k < |bs'| - 1 && bs'[k] !in ex - {b} + {b + n} && IsFree(r, bs'[k]) ==>
              bs'[k] in lists[GetClassNo(Size(r, bs'[k]))]
  {
    forall k | 0 <= k < |bs'| - 1 && bs'[k] !in ex - {b} + {b + n} && IsFree(r, bs'[k])
      ensures bs'[k] in lists[GetClassNo(Size(r, bs'[k]))]
    {
      var x := bs'[k];
      assert k != i && k != i + 1;
      var m := if k < i then k else k - 1;
      assert bs[m] == x && m != i && m < |bs| - 1;
      assert r.mem[x] == h.mem[x];
      assert x !in ex;
    }
  }

  /** After a split, the transit set holds real blocks that are on no list. */
  lemma SplitTransit(h: Heap, bs: seq<nat>, lists: seq<seq<nat>>, ex: set<nat>, b: nat, n: nat, r: Heap,
                     bs': seq<nat>)
    requires Inv(h, bs, lists, ex) && CanSplit(h, b, n) && Splitted(h, b, n, r)
    requires KeepsHeaders(h, r, bs, b) && b + n !in bs && b + n in bs' && b + n + 1 < |h.mem|
    requires forall x :: x in bs ==> x in bs'
    requires forall c, k :: 0 <= c < CLASS_NUMBER && 0 <= k < |lists[c]| ==> lists[c][k] in bs
    ensures forall x :: x in ex - {b} + {b + n} ==> IsBlock(r, bs', x) && x !in lists[GetClassNo(Size(r, x))]
  {
    forall x | x in ex - {b} + {b + n}
      ensures IsBlock(r, bs', x) && x !in lists[GetClassNo(Size(r, x))]
    {
      if x != b + n {
        var j := BlockIndex(h, bs, x);
        assert r.mem[x] == h.mem[x];
      }
    }
  }

}
