/**
 * Merging two physically adjacent blocks (Project/MallocLab/mm.c,
 * `combine_block`), the step `coalesce` repeats for each free neighbour.
 * Both blocks are on no list when they are merged; the merged block reads
 * free and is in transit until `free` lists it.
 */
module MmCombine {
  import opened MmCodec
  import opened MmHeap
  import opened MmLists
  import opened Seqs

  /** b is the block that physically follows block a. */
  predicate Adjacent(h: Heap, bs: seq<nat>, a: nat, b: nat)
  {
    IsBlock(h, bs, a) && IsBlock(h, bs, b) && a < |h.mem| && b == a + Size(h, a)
  }

  /** A block on no list: not on the list of its own class, and so on no list at all. */
  predicate Unlisted(h: Heap, lists: seq<seq<nat>>, x: nat)
    requires x < |h.mem| && |lists| == CLASS_NUMBER
  {
    x !in lists[GetClassNo(Size(h, x))]
  }

  /** The position of b in the block sequence is the one after a's. */
  lemma AdjacentIndex(h: Heap, bs: seq<nat>, a: nat, b: nat) returns (i: nat)
    requires Layout(h, bs) && Adjacent(h, bs, a, b)
    ensures i + 1 < |bs| - 1 && bs[i] == a && bs[i + 1] == b
    ensures IndexOf(bs, b) == i + 1
    ensures forall k :: 0 <= k < |bs| && k != i + 1 ==> bs[k] != b
    ensures forall k :: 0 <= k < |bs| && k != i ==> bs[k] != a
  {
    i := BlockIndex(h, bs, a);
    var j := BlockIndex(h, bs, b);
    assert bs[i + 1] == a + Size(h, a);
    OnlyAt(h, bs, i + 1);
    OnlyAt(h, bs, i);
    assert j == i + 1;
  }

  /** The block sequence after merging b into the block before it. */
  function MergedBlocks(bs: seq<nat>, b: nat): (bs': seq<nat>)
    requires b in bs
    ensures |bs'| == |bs| - 1
  {
    RemoveAt(bs, IndexOf(bs, b))
  }

  /** The size of the merged block fits the tag's size field and the heap. */
  lemma CombineFits(h: Heap, bs: seq<nat>, a: nat, b: nat)
    requires Layout(h, bs) && Adjacent(h, bs, a, b)
    ensures 1 <= Size(h, a) + Size(h, b) < SIZE_LIMIT
    ensures a + Size(h, a) + Size(h, b) <= |h.mem| - 1
    ensures BlockOk(h, a) && BlockOk(h, b) && FIRST <= a
  {
    BlockFacts(h, bs, a);
    BlockFacts(h, bs, b);
  }

  /**
   * `combine_block` on two adjacent blocks of the layout yields the layout
   * without b, with a covering both blocks, and every header but a's kept.
   */
  lemma CombineLayout(h: Heap, bs: seq<nat>, a: nat, b: nat)
    requires Layout(h, bs) && Adjacent(h, bs, a, b)
    ensures 1 <= Size(h, a) + Size(h, b) < SIZE_LIMIT && a + Size(h, a) + Size(h, b) <= |h.mem|
    ensures var r := CombineBlock(h, a, b);
      Layout(r, MergedBlocks(bs, b)) && KeepsHeaders(h, r, bs, a)
  {
    CombineFits(h, bs, a, b);
    var i := AdjacentIndex(h, bs, a, b);
    var r := CombineBlock(h, a, b);
    var bs' := MergedBlocks(bs, b);
    var s := Size(h, a) + Size(h, b);
    forall k | 0 <= k < |bs| && k != i && k != i + 1
      ensures r.mem[bs[k]] == h.mem[bs[k]]
      ensures k < |bs| - 1 ==> BlockOk(r, bs[k]) && Size(r, bs[k]) == Size(h, bs[k])
    {
      TagsOutside(h, bs, a, k);
      TagsOutside(h, bs, b, k);
      LayoutBounds(h, bs, k);
      if k < |bs| - 1 {
        assert BlockOk(h, bs[k]);
      }
    }
    CombineLayoutAt(h, bs, a, b, r, i, bs');
  }

  lemma CombineLayoutAt(h: Heap, bs: seq<nat>, a: nat, b: nat, r: Heap, i: nat, bs': seq<nat>)
    requires Layout(h, bs) && Adjacent(h, bs, a, b) && i + 1 < |bs| - 1 && bs[i] == a && bs[i + 1] == b
    requires BlockOk(h, a) && BlockOk(h, b) && FIRST <= a && a + Size(h, a) + Size(h, b) <= |h.mem| - 1
    requires Sized(r) && |r.mem| == |h.mem| && Size(r, a) == Size(h, a) + Size(h, b)
    requires r.mem[a + Size(r, a) - 1] == r.mem[a]
    requires forall j :: 0 <= j < |h.mem| && j != a && j != a + Size(r, a) - 1 ==> r.mem[j] == h.mem[j]
    requires forall k :: 0 <= k < |bs| - 1 && k != i && k != i + 1 ==> BlockOk(r, bs[k]) && Size(r, bs[k]) == Size(h, bs[k])
    requires bs' == RemoveAt(bs, i + 1)
    ensures Layout(r, bs') && KeepsHeaders(h, r, bs, a)
  {
    CombineBlocksOk(h, bs, a, b, r, i, bs');
    assert bs[i + 2] == b + Size(h, b);
    forall k, j | 0 <= k < |bs'| - 1 && j == k + 1
      ensures bs'[j] == bs'[k] + Size(r, bs'[k])
    {
      if k < i {
        assert bs'[k] == bs[k] && bs'[j] == bs[k + 1];
        assert bs[k + 1] == bs[k] + Size(h, bs[k]);
      } else if k == i {
        assert bs'[k] == a && bs'[j] == bs[i + 2];
      } else {
        assert bs'[k] == bs[k + 1] && bs'[j] == bs[k + 2];
        assert bs[k + 2] == bs[k + 1] + Size(h, bs[k + 1]);
      }
    }
    CombineKeeps(h, bs, a, b, r, i);
  }

  lemma CombineBlocksOk(h: Heap, bs: seq<nat>, a: nat, b: nat, r: Heap, i: nat, bs': seq<nat>)
    requires Layout(h, bs) && Adjacent(h, bs, a, b) && i + 1 < |bs| - 1 && bs[i] == a && bs[i + 1] == b
    requires BlockOk(h, a) && BlockOk(h, b) && FIRST <= a && a + Size(h, a) + Size(h, b) <= |h.mem| - 1
    requires Sized(r) && |r.mem| == |h.mem| && Size(r, a) == Size(h, a) + Size(h, b)
    requires r.mem[a + Size(r, a) - 1] == r.mem[a]
    requires forall j :: 0 <= j < |h.mem| && j != a && j != a + Size(r, a) - 1 ==> r.mem[j] == h.mem[j]
    requires forall k :: 0 <= k < |bs| - 1 && k != i && k != i + 1 ==> BlockOk(r, bs[k])
    requires bs' == RemoveAt(bs, i + 1)
    ensures Sized(r) && FIRST < |r.mem|
    ensures r.mem[PROLOGUE] == PROLOGUE_TAG && r.mem[PROLOGUE + 1] == PROLOGUE_TAG
    ensures |bs'| >= 1 && bs'[0] == FIRST && bs'[|bs'| - 1] == |r.mem| - 1 && r.mem[|r.mem| - 1] == EPILOGUE_TAG
    ensures forall k :: 0 <= k < |bs'| - 1 ==> BlockOk(r, bs'[k])
  {
    assert r.mem[PROLOGUE] == h.mem[PROLOGUE] && r.mem[PROLOGUE + 1] == h.mem[PROLOGUE + 1];
    assert r.mem[|h.mem| - 1] == h.mem[|h.mem| - 1];
    assert BlockOk(r, a);
    assert bs'[0] == bs[0];
    assert bs'[|bs'| - 1] == bs[|bs| - 1];
    forall k | 0 <= k < |bs'| - 1
      ensures BlockOk(r, bs'[k])
    {
      if k < i {
        assert bs'[k] == bs[k];
      } else if k > i {
        assert bs'[k] == bs[k + 1];
      }
    }
  }

  lemma CombineKeeps(h: Heap, bs: seq<nat>, a: nat, b: nat, r: Heap, i: nat)
    requires Layout(h, bs) && Adjacent(h, bs, a, b) && i + 1 < |bs| - 1 && bs[i] == a && bs[i + 1] == b
    requires |r.mem| == |h.mem| && a + Size(r, a) - 1 == b + Size(h, b) - 1
    requires forall j :: 0 <= j < |h.mem| && j != a && j != a + Size(r, a) - 1 ==> r.mem[j] == h.mem[j]
    ensures KeepsHeaders(h, r, bs, a)
  {
    OnlyAt(h, bs, i + 1);
    forall k | 0 <= k < |bs| && bs[k] != a && bs[k] < |h.mem| && bs[k] < |r.mem|
      ensures r.mem[bs[k]] == h.mem[bs[k]]
    {
      if k != i + 1 && k != |bs| - 1 {
        TagsOutside(h, bs, b, k);
      }
    }
  }

  /**
   * The lists survive `combine_block` of two unlisted blocks: no listed
   * block's header or links lie in either block.
   */
  lemma CombineLists(h: Heap, bs: seq<nat>, lists: seq<seq<nat>>, a: nat, b: nat)
    requires Layout(h, bs) && FreeLists(h, bs, lists) && Adjacent(h, bs, a, b)
    requires Unlisted(h, lists, a) && Unlisted(h, lists, b)
    ensures 1 <= Size(h, a) + Size(h, b) < SIZE_LIMIT && a + Size(h, a) + Size(h, b) <= |h.mem|
    ensures FreeLists(CombineBlock(h, a, b), MergedBlocks(bs, b), lists)
  {
    CombineFits(h, bs, a, b);
    CombineListsAt(h, bs, lists, a, b, CombineBlock(h, a, b));
  }

  /** `CombineLists` for any heap that rewrote only a's two tags to the summed size. */
  lemma CombineListsAt(h: Heap, bs: seq<nat>, lists: seq<seq<nat>>, a: nat, b: nat, r: Heap)
    requires Layout(h, bs) && FreeLists(h, bs, lists) && Adjacent(h, bs, a, b)
    requires Unlisted(h, lists, a) && Unlisted(h, lists, b)
    requires |r.mem| == |h.mem| && r.seg == h.seg && r.limit == h.limit
    requires Size(r, a) == Size(h, a) + Size(h, b)
    requires forall j {:trigger r.mem[j]} :: 0 <= j < |h.mem| && j != a && j != a + Size(r, a) - 1 ==>
      r.mem[j] == h.mem[j]
    ensures FreeLists(r, MergedBlocks(bs, b), lists)
  {
    CombineFits(h, bs, a, b);
    ListedOutside(h, bs, lists, a);
    ListedOutside(h, bs, lists, b);
    ListedStay(h, bs, lists, a, b);
    ListsKeep(h, bs, lists, r, MergedBlocks(bs, b));
  }

  /** Every listed block is still in the block sequence once b leaves it. */
  lemma ListedStay(h: Heap, bs: seq<nat>, lists: seq<seq<nat>>, a: nat, b: nat)
    requires Layout(h, bs) && FreeLists(h, bs, lists) && Adjacent(h, bs, a, b) && Unlisted(h, lists, b)
    ensures forall c, k :: 0 <= c < CLASS_NUMBER && 0 <= k < |lists[c]| ==> lists[c][k] in MergedBlocks(bs, b)
  {
    var bs' := MergedBlocks(bs, b);
    var i := AdjacentIndex(h, bs, a, b);
    ListedOutside(h, bs, lists, b);
    forall c, k | 0 <= c < CLASS_NUMBER && 0 <= k < |lists[c]|
      ensures lists[c][k] in bs'
    {
      var x := lists[c][k];
      var m :| 0 <= m < |bs| && bs[m] == x;
      assert m != i + 1;
      assert bs'[if m < i + 1 then m else m - 1] == x;
    }
  }

  /**
   * `combine_block` on two adjacent blocks that are on no list keeps the
   * heap coherent: b disappears from the block sequence and the transit
   * set, and a, now free and covering both, is in transit.
   */
  lemma CombineInv(h: Heap, bs: seq<nat>, lists: seq<seq<nat>>, ex: set<nat>, a: nat, b: nat)
    requires Inv(h, bs, lists, ex) && Adjacent(h, bs, a, b)
    requires Unlisted(h, lists, a) && Unlisted(h, lists, b)
    ensures 1 <= Size(h, a) + Size(h, b) < SIZE_LIMIT && a + Size(h, a) + Size(h, b) <= |h.mem|
    ensures var r, bs' := CombineBlock(h, a, b), MergedBlocks(bs, b);
      && Inv(r, bs', lists, ex - {b} + {a})
      && Size(r, a) == Size(h, a) + Size(h, b) && IsFree(r, a) && IsBlock(r, bs', a)
      && KeepsHeaders(h, r, bs, a) && b !in bs' && (forall x :: x in bs' <==> x in bs && x != b)
  {
    CombineLayout(h, bs, a, b);
    CombineLists(h, bs, lists, a, b);
    var r := CombineBlock(h, a, b);
    var bs' := MergedBlocks(bs, b);
    var i := AdjacentIndex(h, bs, a, b);
    MergedMembers(bs, i + 1);
    CombineCoherence(h, bs, lists, ex, a, b, r, bs');
  }

  /** Removing position k of a sequence without repeats keeps exactly the other elements. */
  lemma MergedMembers(bs: seq<nat>, k: nat)
    requires k < |bs| && forall j :: 0 <= j < |bs| && j != k ==> bs[j] != bs[k]
    ensures forall x :: x in RemoveAt(bs, k) <==> x in bs && x != bs[k]
  {
    var r := RemoveAt(bs, k);
    forall x | x in bs && x != bs[k]
      ensures x in r
    {
      var j :| 0 <= j < |bs| && bs[j] == x;
      assert r[if j < k then j else j - 1] == x;
    }
  }

  lemma CombineCoherence(h: Heap, bs: seq<nat>, lists: seq<seq<nat>>, ex: set<nat>, a: nat, b: nat, r: Heap,
                         bs': seq<nat>)
    requires Inv(h, bs, lists, ex) && Adjacent(h, bs, a, b)
    requires Unlisted(h, lists, a) && Unlisted(h, lists, b)
    requires Layout(r, bs') && FreeLists(r, bs', lists) && KeepsHeaders(h, r, bs, a)
    requires |r.mem| == |h.mem| && IsFree(r, a)
    requires forall x :: x in bs' <==> x in bs && x != b
    ensures Inv(r, bs', lists, ex - {b} + {a})
  {
    CombineCovers(h, bs, lists, ex, a, b, r, bs');
    CombineTransit(h, bs, lists, ex, a, b, r, bs');
  }

  /** After a merge every free block outside the transit set is still listed. */
  lemma CombineCovers(h: Heap, bs: seq<nat>, lists: seq<seq<nat>>, ex: set<nat>, a: nat, b: nat, r: Heap,
                      bs': seq<nat>)
    requires Inv(h, bs, lists, ex) && Adjacent(h, bs, a, b)
    requires Layout(r, bs') && KeepsHeaders(h, r, bs, a) && |r.mem| == |h.mem|
    requires forall x :: x in bs' <==> x in bs && x != b
    ensures forall k :: 0 <= k < |bs'| - 1 && bs'[k] !in ex - {b} + {a} && IsFree(r, bs'[k]) ==>
              bs'[k] in lists[GetClassNo(Size(r, bs'[k]))]
  {
    forall k | 0 <= k < |bs'| - 1 && bs'[k] !in ex - {b} + {a} && IsFree(r, bs'[k])
      ensures bs'[k] in lists[GetClassNo(Size(r, bs'[k]))]
    {
      var x := bs'[k];
      assert x in bs';
      var m :| 0 <= m < |bs| && bs[m] == x;
      assert r.mem[x] == h.mem[x];
      LayoutBounds(r, bs', k);
      LayoutBounds(h, bs, |bs| - 1);
      assert m != |bs| - 1;
    }
  }

  /** After a merge the transit set holds real blocks that are on no list. */
  lemma CombineTransit(h: Heap, bs: seq<nat>, lists: seq<seq<nat>>, ex: set<nat>, a: nat, b: nat, r: Heap,
                       bs': seq<nat>)
    requires Inv(h, bs, lists, ex) && Adjacent(h, bs, a, b) && Unlisted(h, lists, a)
    requires KeepsHeaders(h, r, bs, a) && |r.mem| == |h.mem|
    requires forall x :: x in bs' <==> x in bs && x != b
    ensures forall x :: x in ex - {b} + {a} ==> IsBlock(r, bs', x) && x !in lists[GetClassNo(Size(r, x))]
  {
    forall x | x in ex - {b} + {a}
      ensures IsBlock(r, bs', x) && x !in lists[GetClassNo(Size(r, x))]
    {
      assert x in bs && x != b;
      if x != a {
        var m := BlockIndex(h, bs, x);
        assert r.mem[x] == h.mem[x];
      } else {
        ListedClass(h, bs, lists);
      }
    }
  }
}
