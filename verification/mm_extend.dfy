/**
 * Growing the heap (Project/MallocLab/mm.c, `extend_heap` and `mm_init`).
 *
 * `mem_sbrk` is modelled by the heap's `limit`: asking for n more words
 * succeeds exactly when the heap stays within the limit, and the new words
 * read 0 until they are written.
 */
module MmExtend {
  import opened MmCodec
  import opened MmHeap
  import opened MmLists

  /** `extend_heap` rounds an odd word count up to keep blocks double-word aligned. */
  function EvenUp(words: nat): (n: nat)
    ensures n % 2 == 0 && words <= n <= words + 1
  {
    if words % 2 == 1 then words + 1 else words
  }

  /** `mem_sbrk(n * WSIZE)` succeeds: the grown heap stays within its limit. */
  predicate CanGrow(h: Heap, n: nat)
  {
    |h.mem| + n <= h.limit
  }

  /** `mem_sbrk` on success: n fresh words at the end of the heap. */
  function Sbrk(h: Heap, n: nat): (r: Heap)
    requires CanGrow(h, n)
    ensures |r.mem| == |h.mem| + n && r.seg == h.seg && r.limit == h.limit
    ensures forall j {:trigger r.mem[j]} :: 0 <= j < |h.mem| ==> r.mem[j] == h.mem[j]
  {
    h.(mem := h.mem + seq(n, _ => 0))
  }

  /**
   * `extend_heap` once `mem_sbrk` has succeeded: the old epilogue word
   * becomes the header of a free block of the rounded size, and a new
   * epilogue `PACK(0, 1)` goes in the last word.
   */
  function ExtendHeap(h: Heap, words: nat): (r: Heap)
    requires Sized(h) && 1 <= |h.mem| && BLOCKSIZE_MIN <= words && CanGrow(h, EvenUp(words))
    ensures |r.mem| == |h.mem| + EvenUp(words) && r.seg == h.seg && r.limit == h.limit
  {
    var size, e := EvenUp(words), |h.mem| - 1;
    var h1 := Sbrk(h, size);
    var h2 := InitBlock(h1, e, size);
    Put(h2, e + size, EPILOGUE_TAG)
  }

  /** What `extend_heap` leaves: see `ExtendHeapEffect`. */
  predicate Extended(h: Heap, words: nat, r: Heap)
    requires 1 <= |h.mem|
  {
    var size, e := EvenUp(words), |h.mem| - 1;
    && |r.mem| == |h.mem| + size && r.seg == h.seg && r.limit == h.limit
    && BLOCKSIZE_MIN <= size && |r.mem| <= r.limit
    && Size(r, e) == size && IsFree(r, e) && r.mem[e + size - 1] == r.mem[e]
    && r.mem[|r.mem| - 1] == EPILOGUE_TAG
    && forall j :: 0 <= j < e ==> r.mem[j] == h.mem[j]
  }

  /**
   * After `extend_heap` the old epilogue heads a free block of the rounded
   * size whose footer matches its header, the last word is the new
   * epilogue, and every word before the old epilogue is unchanged.
   */
  lemma ExtendHeapEffect(h: Heap, words: nat)
    requires Sized(h) && 1 <= |h.mem| && BLOCKSIZE_MIN <= words && CanGrow(h, EvenUp(words))
    ensures Extended(h, words, ExtendHeap(h, words))
  {
    var size, e := EvenUp(words), |h.mem| - 1;
    var h1 := Sbrk(h, size);
    var h2 := InitBlock(h1, e, size);
    var r := Put(h2, e + size, EPILOGUE_TAG);
    assert r.mem[e] == h2.mem[e] && r.mem[e + size - 1] == h2.mem[e + size - 1];
    assert forall j :: 0 <= j < e ==> r.mem[j] == h2.mem[j] && h2.mem[j] == h1.mem[j];
  }

  /**
   * `extend_heap` keeps the heap coherent: the old epilogue e becomes a free
   * block in transit at the end of the block sequence, followed by the new
   * epilogue, and no other header changes. Stated for any heap with the
   * effect of `extend_heap` (see `ExtendHeapEffect`).
   */
  lemma ExtendInvAt(h: Heap, bs: seq<nat>, lists: seq<seq<nat>>, ex: set<nat>, words: nat, r: Heap,
                    e: nat, bs': seq<nat>)
    requires Inv(h, bs, lists, ex) && BLOCKSIZE_MIN <= words && Extended(h, words, r)
    requires e == |h.mem| - 1 && bs' == bs + [|r.mem| - 1]
    ensures Inv(r, bs', lists, ex + {|h.mem| - 1}) && KeepsHeaders(h, r, bs, |h.mem| - 1)
    ensures IsBlock(r, bs', |h.mem| - 1)
  {
    ExtendLayout(h, bs, words, r, bs');
    ExtendLists(h, bs, lists, words, r, bs');
    ExtendCoherence(h, bs, lists, ex, words, r, bs');
  }

  /** The new block's size and free bit, read off at the old epilogue `e`. */
  lemma ExtendedAt(h: Heap, words: nat, r: Heap, e: nat)
    requires 1 <= |h.mem| && Extended(h, words, r) && e == |h.mem| - 1
    ensures Size(r, e) == EvenUp(words) && IsFree(r, e)
    ensures |r.mem| == |h.mem| + EvenUp(words) && r.limit == h.limit
  {
  }

  /** The epilogue is the last entry of the block sequence and every other entry ends before it. */
  lemma BeforeEpilogue(h: Heap, bs: seq<nat>)
    requires Layout(h, bs)
    ensures forall k :: 0 <= k < |bs| - 1 ==> bs[k] + Size(h, bs[k]) <= |h.mem| - 1 && bs[k] < |h.mem| - 1
  {
    forall k | 0 <= k < |bs| - 1
      ensures bs[k] + Size(h, bs[k]) <= |h.mem| - 1 && bs[k] < |h.mem| - 1
    {
      LayoutBounds(h, bs, k);
    }
  }

  lemma ExtendLayout(h: Heap, bs: seq<nat>, words: nat, r: Heap, bs': seq<nat>)
    requires Layout(h, bs) && BLOCKSIZE_MIN <= words && Extended(h, words, r) && bs' == bs + [|r.mem| - 1]
    ensures Layout(r, bs') && KeepsHeaders(h, r, bs, |h.mem| - 1)
  {
    var e := |h.mem| - 1;
    BeforeEpilogue(h, bs);
    forall k | 0 <= k < |bs'| - 1
      ensures BlockOk(r, bs'[k]) && Size(r, bs'[k]) == (if k < |bs| - 1 then Size(h, bs[k]) else EvenUp(words))
    {
      if k < |bs| - 1 {
        assert BlockOk(h, bs[k]);
        assert r.mem[bs[k]] == h.mem[bs[k]];
        assert r.mem[bs[k] + Size(h, bs[k]) - 1] == h.mem[bs[k] + Size(h, bs[k]) - 1];
      } else {
        assert bs'[k] == e;
      }
    }
    forall k, j | 0 <= k < |bs'| - 1 && j == k + 1
      ensures bs'[j] == bs'[k] + Size(r, bs'[k])
    {
      if k < |bs| - 1 {
        assert bs'[k] == bs[k] && bs'[j] == bs[j];
      }
    }
  }

  lemma ExtendLists(h: Heap, bs: seq<nat>, lists: seq<seq<nat>>, words: nat, r: Heap, bs': seq<nat>)
    requires Layout(h, bs) && FreeLists(h, bs, lists) && Extended(h, words, r) && bs' == bs + [|r.mem| - 1]
    requires Sized(r)
    ensures FreeLists(r, bs', lists)
  {
    forall c, k | 0 <= c < CLASS_NUMBER && 0 <= k < |lists[c]| && lists[c][k] + 2 < |h.mem|
      ensures lists[c][k] in bs'
    {
      assert lists[c][k] in lists[c];
      assert Entry(h, bs, c, lists[c][k]);
    }
    ListsKeep(h, bs, lists, r, bs');
  }

  lemma ExtendCoherence(h: Heap, bs: seq<nat>, lists: seq<seq<nat>>, ex: set<nat>, words: nat, r: Heap,
                        bs': seq<nat>)
    requires Inv(h, bs, lists, ex) && Extended(h, words, r) && bs' == bs + [|r.mem| - 1]
    requires Layout(r, bs') && FreeLists(r, bs', lists) && KeepsHeaders(h, r, bs, |h.mem| - 1)
    ensures Inv(r, bs', lists, ex + {|h.mem| - 1})
  {
    ExtendListed(h, bs, lists, ex, r, bs');
    ExtendTransit(h, bs, lists, ex, words, r, bs');
  }

  /** A free block of the old heap outside the transit set is still on its list. */
  lemma ExtendListed(h: Heap, bs: seq<nat>, lists: seq<seq<nat>>, ex: set<nat>, r: Heap, bs': seq<nat>)
    requires Inv(h, bs, lists, ex) && bs' == bs + [|r.mem| - 1] && Layout(r, bs')
    requires KeepsHeaders(h, r, bs, |h.mem| - 1)
    ensures forall k :: 0 <= k < |bs'| - 1 && bs'[k] !in ex + {|h.mem| - 1} && IsFree(r, bs'[k]) ==>
      bs'[k] in lists[GetClassNo(Size(r, bs'[k]))]
  {
    var e := |h.mem| - 1;
    BeforeEpilogue(h, bs);
    forall k | 0 <= k < |bs'| - 1 && bs'[k] !in ex + {e} && IsFree(r, bs'[k])
      ensures bs'[k] in lists[GetClassNo(Size(r, bs'[k]))]
    {
      assert k < |bs| - 1 && bs'[k] == bs[k];
      assert r.mem[bs[k]] == h.mem[bs[k]];
    }
  }

  /** The transit set, with the old epilogue added, holds real blocks of the grown heap on no list. */
  lemma ExtendTransit(h: Heap, bs: seq<nat>, lists: seq<seq<nat>>, ex: set<nat>, words: nat, r: Heap,
                      bs': seq<nat>)
    requires Inv(h, bs, lists, ex) && Extended(h, words, r) && bs' == bs + [|r.mem| - 1]
    requires KeepsHeaders(h, r, bs, |h.mem| - 1)
    ensures forall x :: x in ex + {|h.mem| - 1} ==> IsBlock(r, bs', x) && x !in lists[GetClassNo(Size(r, x))]
  {
    var e := |h.mem| - 1;
    BeforeEpilogue(h, bs);
    forall x | x in ex + {e}
      ensures IsBlock(r, bs', x) && x !in lists[GetClassNo(Size(r, x))]
    {
      if x != e {
        var m := BlockIndex(h, bs, x);
        assert r.mem[x] == h.mem[x];
      } else {
        assert bs'[|bs| - 1] == e;
        ListedClass(h, bs, lists);
      }
    }
  }

}
