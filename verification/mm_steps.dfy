/**
 * The allocator's helper routines (Project/MallocLab/mm.c) as steps on a
 * coherent heap: each step returns the new heap together with the new
 * block sequence and class lists, and states how they relate to the old
 * ones. The entry points in `MmAlloc` are written with these steps only.
 */
module MmSteps {
  import opened MmCodec
  import opened MmHeap
  import opened MmLists
  import opened MmPlace
  import opened MmCombine
  import opened MmExtend
  import opened Seqs

  /** lists' holds the blocks of lists, class by class, except b. */
  ghost predicate Without(lists: seq<seq<nat>>, b: nat, lists': seq<seq<nat>>)
  {
    && |lists| == CLASS_NUMBER && |lists'| == CLASS_NUMBER
    && forall c, x :: 0 <= c < CLASS_NUMBER ==> (x in lists'[c] <==> x in lists[c] && x != b)
  }

  /** lists' holds the blocks of lists, class by class, and b in class c0. */
  ghost predicate With(lists: seq<seq<nat>>, b: nat, c0: nat, lists': seq<seq<nat>>)
  {
    && |lists| == CLASS_NUMBER && |lists'| == CLASS_NUMBER
    && forall c, x :: 0 <= c < CLASS_NUMBER ==> (x in lists'[c] <==> x in lists[c] || (c == c0 && x == b))
  }

  /** A free block that is not in transit is on the list of its class. */
  lemma Listed(h: Heap, bs: seq<nat>, lists: seq<seq<nat>>, ex: set<nat>, x: nat)
    requires Inv(h, bs, lists, ex) && IsBlock(h, bs, x) && IsFree(h, x) && x !in ex
    ensures x in lists[GetClassNo(Size(h, x))]
  {
    var i := BlockIndex(h, bs, x);
  }

  /**
   * `block_mark` on a block that is on no list: the block keeps its size,
   * gets the requested state, joins the transit set when marked free and
   * leaves it when marked allocated.
   */
  method Mark(h: Heap, b: nat, free: bool, ghost bs: seq<nat>, ghost lists: seq<seq<nat>>, ghost ex: set<nat>)
    returns (r: Heap)
    requires Inv(h, bs, lists, ex) && IsBlock(h, bs, b) && b !in lists[GetClassNo(Size(h, b))]
    ensures Inv(r, bs, lists, if free then ex + {b} else ex - {b})
    ensures |r.mem| == |h.mem| && r.limit == h.limit
    ensures Size(r, b) == Size(h, b) && IsFree(r, b) == free && KeepsHeaders(h, r, bs, b)
  {
    MarkInv(h, bs, lists, ex, b, free);
    r := BlockMark(h, b, free);
  }

  /**
   * `add_to_free_list` on a block in transit: the block leaves the transit
   * set, is free, and is the new head of the list of its class.
   */
  method Push(h: Heap, b: nat, ghost bs: seq<nat>, ghost lists: seq<seq<nat>>, ghost ex: set<nat>)
    returns (r: Heap, ghost lists': seq<seq<nat>>)
    requires Inv(h, bs, lists, ex) && b in ex
    ensures Inv(r, bs, lists', ex - {b})
    ensures |r.mem| == |h.mem| && r.limit == h.limit
    ensures Size(r, b) == Size(h, b) && IsFree(r, b) && KeepsHeaders(h, r, bs, b)
    ensures var c := GetClassNo(Size(h, b)); lists' == lists[c := [b] + lists[c]] && r.seg[c] == b
    ensures With(lists, b, GetClassNo(Size(h, b)), lists')
  {
    AddToFreeListInv(h, bs, lists, ex, b);
    r := AddToFreeList(h, b);
    var c := GetClassNo(Size(h, b));
    lists' := lists[c := [b] + lists[c]];
    PushedWith(lists, b, c);
  }

  /** Putting b in front of list c adds b to that list and nothing else. */
  lemma PushedWith(lists: seq<seq<nat>>, b: nat, c: nat)
    requires |lists| == CLASS_NUMBER && c < CLASS_NUMBER
    ensures With(lists, b, c, lists[c := [b] + lists[c]])
  {
    var lists' := lists[c := [b] + lists[c]];
    forall c', x | 0 <= c' < CLASS_NUMBER
      ensures x in lists'[c'] <==> x in lists[c'] || (c' == c && x == b)
    {
      if c' == c {
        assert lists'[c'] == [b] + lists[c];
      }
    }
  }

  /**
   * `delete_block` on a listed block: the block is marked allocated, keeps
   * its size, and is on no list afterwards; every other block stays listed.
   */
  method Unlink(h: Heap, b: nat, ghost bs: seq<nat>, ghost lists: seq<seq<nat>>, ghost ex: set<nat>)
    returns (r: Heap, ghost lists': seq<seq<nat>>)
    requires Inv(h, bs, lists, ex) && IsBlock(h, bs, b) && b in lists[GetClassNo(Size(h, b))]
    ensures Inv(r, bs, lists', ex)
    ensures |r.mem| == |h.mem| && r.limit == h.limit
    ensures Size(r, b) == Size(h, b) && !IsFree(r, b) && KeepsHeaders(h, r, bs, b)
    ensures Without(lists, b, lists')
  {
    DeleteBlockInv(h, bs, lists, ex, b);
    r := DeleteBlock(h, b);
    var c := GetClassNo(Size(h, b));
    var L := lists[c];
    lists' := lists[c := RemoveAt(L, IndexOf(L, b))];
    assert NoDup(L);
    RemoveNoDup(L, IndexOf(L, b));
    ListedClass(h, bs, lists);
  }

  /**
   * The split branch of `place` before the remainder is listed: b becomes
   * an allocated block of n words and the rest of it a new free block,
   * right after b in the block sequence and in transit.
   */
  method Split(h: Heap, b: nat, n: nat, ghost bs: seq<nat>, ghost lists: seq<seq<nat>>, ghost ex: set<nat>)
    returns (r: Heap, ghost bs': seq<nat>)
    requires Inv(h, bs, lists, ex) && IsBlock(h, bs, b) && b !in lists[GetClassNo(Size(h, b))]
    requires CanSplit(h, b, n) && n >= BLOCKSIZE_MIN && n % 2 == 0
    ensures Inv(r, bs', lists, ex - {b} + {b + n})
    ensures |r.mem| == |h.mem| && r.limit == h.limit
    ensures Size(r, b) == n && !IsFree(r, b) && Size(r, b + n) == Size(h, b) - n && IsFree(r, b + n)
    ensures IsBlock(r, bs', b) && IsBlock(r, bs', b + n) && b + n !in bs
    ensures KeepsHeaders(h, r, bs, b)
    ensures forall x :: x in bs' <==> x in bs || x == b + n
  {
    SplitInv(h, bs, lists, ex, b, n);
    SplitMembers(h, bs, b, n);
    r := SplitBlock(h, b, n);
    bs' := SplitBlocks(bs, b, n);
  }

  /**
   * `combine_block` on two adjacent blocks on no list: a takes the summed
   * size and reads free, b leaves the block sequence and the transit set,
   * a joins the transit set (ex' names the resulting transit set).
   */
  method Combine(h: Heap, a: nat, b: nat, ghost bs: seq<nat>, ghost lists: seq<seq<nat>>, ghost ex: set<nat>,
                 ghost ex': set<nat>)
    returns (r: Heap, ghost bs': seq<nat>)
    requires Inv(h, bs, lists, ex) && Adjacent(h, bs, a, b)
    requires Unlisted(h, lists, a) && Unlisted(h, lists, b) && ex' == ex - {b} + {a}
    ensures Inv(r, bs', lists, ex')
    ensures |r.mem| == |h.mem| && r.limit == h.limit
    ensures Size(r, a) == Size(h, a) + Size(h, b) && IsFree(r, a) && IsBlock(r, bs', a)
    ensures KeepsHeaders(h, r, bs, a)
    ensures forall x :: x in bs' <==> x in bs && x != b
  {
    CombineInv(h, bs, lists, ex, a, b);
    r := CombineBlock(h, a, b);
    bs' := MergedBlocks(bs, b);
  }

  /**
   * `extend_heap` when `mem_sbrk` succeeds: the old epilogue heads a new
   * free block of the even-rounded size, in transit, and a new epilogue
   * closes the heap.
   */
  method Extend(h: Heap, words: nat, ghost bs: seq<nat>, ghost lists: seq<seq<nat>>, ghost ex: set<nat>)
    returns (r: Heap, e: nat, ghost bs': seq<nat>)
    requires Inv(h, bs, lists, ex) && BLOCKSIZE_MIN <= words && CanGrow(h, EvenUp(words))
    ensures e == |h.mem| - 1
    ensures Inv(r, bs', lists, ex + {|h.mem| - 1})
    ensures |r.mem| == |h.mem| + EvenUp(words) && r.limit == h.limit
    ensures IsBlock(r, bs', |h.mem| - 1) && Size(r, |h.mem| - 1) == EvenUp(words) && IsFree(r, |h.mem| - 1)
    ensures KeepsHeaders(h, r, bs, |h.mem| - 1)
    ensures forall x :: x in bs' <==> x in bs || x == |r.mem| - 1
  {
    r := ExtendHeap(h, words);
    e := |h.mem| - 1;
    bs' := bs + [|r.mem| - 1];
    ExtendHeapEffect(h, words);
    ExtendInvAt(h, bs, lists, ex, words, r, e, bs');
    ExtendedAt(h, words, r, |h.mem| - 1);
  }
}
