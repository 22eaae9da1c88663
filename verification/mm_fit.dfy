/**
 * `find_first_fit` of Project/MallocLab/mm.c: scan the class lists from the
 * request's own class upward and return the first block, in list order,
 * whose size covers the request.
 */
module MmFit {
  import opened MmCodec
  import opened MmHeap
  import opened MmLists

  /** Every element of xs names a word of the heap. */
  predicate InHeap(h: Heap, xs: seq<nat>)
  {
    forall k :: 0 <= k < |xs| ==> xs[k] < |h.mem|
  }

  /** Every class list names words of the heap. */
  predicate ListsInHeap(h: Heap, lists: seq<seq<nat>>)
  {
    |lists| == CLASS_NUMBER && forall c :: 0 <= c < CLASS_NUMBER ==> InHeap(h, lists[c])
  }

  /** The first block of xs with at least `size` words, or 0 for none. */
  function FitIn(h: Heap, xs: seq<nat>, size: nat): (r: nat)
    requires InHeap(h, xs)
    ensures r != 0 ==> r in xs && r < |h.mem| && Size(h, r) >= size
    ensures (forall k :: 0 <= k < |xs| ==> xs[k] != 0) ==>
              (r == 0 <==> forall k :: 0 <= k < |xs| ==> Size(h, xs[k]) < size)
  {
    if xs == [] then 0
    else if Size(h, xs[0]) >= size then xs[0]
    else FitIn(h, xs[1..], size)
  }

  /** The reference answer: the first fit in class c, else in the classes above it, else 0. */
  function FirstFit(h: Heap, lists: seq<seq<nat>>, c: nat, size: nat): (r: nat)
    requires ListsInHeap(h, lists)
    ensures r != 0 ==> r < |h.mem|
    decreases CLASS_NUMBER - c
  {
    if c >= CLASS_NUMBER then 0
    else
      var f := FitIn(h, lists[c], size);
      if f != 0 then f else FirstFit(h, lists, c + 1, size)
  }

  /** The listed blocks lie inside the heap and are never NULL. */
  lemma ListedBlocks(h: Heap, bs: seq<nat>, lists: seq<seq<nat>>)
    requires Layout(h, bs) && FreeLists(h, bs, lists)
    ensures ListsInHeap(h, lists) && NonNull(lists)
    ensures forall c, k :: 0 <= c < CLASS_NUMBER && 0 <= k < |lists[c]| ==> FIRST <= lists[c][k]
  {
    forall c, k | 0 <= c < CLASS_NUMBER && 0 <= k < |lists[c]|
      ensures FIRST <= lists[c][k] < |h.mem|
    {
      assert lists[c][k] in lists[c];
      assert Entry(h, bs, c, lists[c][k]);
      BlockFacts(h, bs, lists[c][k]);
    }
  }

  /** No class list holds NULL. */
  predicate NonNull(lists: seq<seq<nat>>)
  {
    forall c, k :: 0 <= c < |lists| && 0 <= k < |lists[c]| ==> lists[c][k] != 0
  }

  /**
   * The reference answer is NULL exactly when no listed block of class c or
   * above is large enough; otherwise it is such a block, on the list of a
   * class c or above.
   */
  lemma {:induction false} FirstFitSpec(h: Heap, lists: seq<seq<nat>>, c: nat, size: nat)
    requires ListsInHeap(h, lists) && NonNull(lists)
    ensures var r := FirstFit(h, lists, c, size);
      && (r == 0 <==> forall c', k :: c <= c' < CLASS_NUMBER && 0 <= k < |lists[c']| ==> Size(h, lists[c'][k]) < size)
      && (r != 0 ==> Size(h, r) >= size && exists c' :: c <= c' < CLASS_NUMBER && r in lists[c'])
    decreases CLASS_NUMBER - c
  {
    if c < CLASS_NUMBER {
      FirstFitSpec(h, lists, c + 1, size);
      var f := FitIn(h, lists[c], size);
    }
  }

  /** On a coherent heap the reference answer, when not NULL, is a free block. */
  lemma FirstFitFree(h: Heap, bs: seq<nat>, lists: seq<seq<nat>>, c: nat, size: nat)
    requires Layout(h, bs) && FreeLists(h, bs, lists)
    ensures ListsInHeap(h, lists) && NonNull(lists)
    ensures var r := FirstFit(h, lists, c, size);
      r != 0 ==> IsBlock(h, bs, r) && IsFree(h, r) && r in lists[GetClassNo(Size(h, r))]
  {
    ListedBlocks(h, bs, lists);
    FirstFitSpec(h, lists, c, size);
    var r := FirstFit(h, lists, c, size);
    if r != 0 {
      var c' :| c <= c' < CLASS_NUMBER && r in lists[c'];
      assert Entry(h, bs, c', r);
    }
  }

  /**
   * The inner loop of `find_first_fit`: follow the successor links from
   * `head` and stop at the first block of at least `size` words.
   */
  method ScanList(h: Heap, head: nat, size: nat, ghost L: seq<nat>) returns (p: nat)
    requires ListAt(h, head, L) && forall k :: 0 <= k < |L| ==> L[k] != 0
    ensures InHeap(h, L) && p == FitIn(h, L, size)
  {
    var cur := head;
    ghost var j := 0;
    while cur != 0
      invariant 0 <= j <= |L|
      invariant cur == if j < |L| then L[j] else 0
      invariant FitIn(h, L, size) == FitIn(h, L[j..], size)
      decreases |L| - j
    {
      ListAtAt(h, head, L, j);
      assert L[j..][0] == cur;
      if Size(h, cur) >= size {
        return cur;
      }
      assert L[j..][1..] == L[j + 1..];
      cur := SuccOf(h, cur);
      j := j + 1;
    }
    assert L[j..] == [];
    return 0;
  }

  /**
   * `find_first_fit`: scan each class list, from the request's class
   * upward; the first block large enough is the answer, NULL (0) when none
   * is.
   */
  method FindFirstFit(h: Heap, size: nat, ghost bs: seq<nat>, ghost lists: seq<seq<nat>>) returns (p: nat)
    requires Layout(h, bs) && FreeLists(h, bs, lists)
    ensures ListsInHeap(h, lists) && p == FirstFit(h, lists, GetClassNo(size), size)
  {
    ListedBlocks(h, bs, lists);
    var i := GetClassNo(size);
    while i < CLASS_NUMBER
      invariant GetClassNo(size) <= i <= CLASS_NUMBER
      invariant FirstFit(h, lists, GetClassNo(size), size) == FirstFit(h, lists, i, size)
    {
      assert ListAt(h, h.seg[i], lists[i]);
      p := ScanList(h, h.seg[i], size, lists[i]);
      if p != 0 {
        return;
      }
      i := i + 1;
    }
    return 0;
  }
}
