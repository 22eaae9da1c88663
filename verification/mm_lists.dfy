/**
 * The segregated free lists of Project/MallocLab/mm.c: twelve doubly linked
 * LIFO lists threaded through the predecessor and successor words of free
 * blocks, one per size class, with their heads in the class table.
 * `add_to_free_list`, `delete_block` and `find_first_fit`, and the invariant
 * tying the lists to the physical block sequence.
 */
module MmLists {
  import opened MmCodec
  import opened MmHeap
  import opened Seqs

  /**
   * `xs` is the list reached from `head`: each element's successor link
   * names the next element (NULL after the last) and its predecessor link
   * the one before (NULL before the first).
   */
  predicate ListAt(h: Heap, head: nat, xs: seq<nat>)
  {
    && head == (if |xs| == 0 then 0 else xs[0])
    && (forall k :: 0 <= k < |xs| ==> xs[k] + 2 < |h.mem|)
    && (|xs| > 0 ==> PredOf(h, xs[0]) == 0 && SuccOf(h, xs[|xs| - 1]) == 0)
    && (forall i, j :: 0 <= i < |xs| && j == i + 1 && j < |xs| ==> SuccOf(h, xs[i]) == xs[j] && PredOf(h, xs[j]) == xs[i])
  }

  /** One element of a list and its links. */
  lemma ListAtAt(h: Heap, head: nat, xs: seq<nat>, k: nat)
    requires ListAt(h, head, xs) && k < |xs|
    ensures xs[k] + 2 < |h.mem|
    ensures SuccOf(h, xs[k]) == (if k + 1 < |xs| then xs[k + 1] else 0)
    ensures PredOf(h, xs[k]) == (if k > 0 then xs[k - 1] else 0)
  {
    if k + 1 < |xs| {
      assert SuccOf(h, xs[k]) == xs[k + 1];
    }
    if k > 0 {
      assert PredOf(h, xs[k]) == xs[k - 1];
    }
  }

  /** The element after position k of xs, NULL after the last. */
  function NextIn(xs: seq<nat>, k: nat): nat
  {
    if k + 1 < |xs| then xs[k + 1] else 0
  }

  /** The element before position k of xs, NULL before the first. */
  function PrevIn(xs: seq<nat>, k: nat): nat
    requires k <= |xs|
  {
    if k > 0 then xs[k - 1] else 0
  }

  /** A list given element by element. */
  lemma ListAtIntro(h: Heap, head: nat, xs: seq<nat>)
    requires head == (if |xs| == 0 then 0 else xs[0])
    requires forall k :: 0 <= k < |xs| ==>
      xs[k] + 2 < |h.mem| && SuccOf(h, xs[k]) == NextIn(xs, k) && PredOf(h, xs[k]) == PrevIn(xs, k)
    ensures ListAt(h, head, xs)
  {
    if |xs| > 0 {
      assert PrevIn(xs, 0) == 0 && NextIn(xs, |xs| - 1) == 0;
    }
    forall i, j | 0 <= i < |xs| && j == i + 1 && j < |xs|
      ensures SuccOf(h, xs[i]) == xs[j] && PredOf(h, xs[j]) == xs[i]
    {
      assert NextIn(xs, i) == xs[j] && PrevIn(xs, j) == xs[i];
    }
  }


  /** A block that may sit on list c: a real block, free, and of class c. */
  predicate Entry(h: Heap, bs: seq<nat>, c: nat, x: nat)
  {
    IsBlock(h, bs, x) && x + 2 < |h.mem| && IsFree(h, x) && GetClassNo(Size(h, x)) == c
  }

  /** The twelve lists hang from the class table and hold distinct free blocks of their class. */
  predicate FreeLists(h: Heap, bs: seq<nat>, lists: seq<seq<nat>>)
    requires Sized(h)
  {
    && |lists| == CLASS_NUMBER
    && (forall c :: 0 <= c < CLASS_NUMBER ==> ListAt(h, h.seg[c], lists[c]) && NoDup(lists[c]))
    && (forall c, x :: 0 <= c < CLASS_NUMBER && x in lists[c] ==> Entry(h, bs, c, x))
  }

  /** A listed block is a free block of the heap, with its links inside it, on the list of its own class. */
  lemma ListedClass(h: Heap, bs: seq<nat>, lists: seq<seq<nat>>)
    requires Sized(h) && FreeLists(h, bs, lists)
    ensures forall c, x :: 0 <= c < CLASS_NUMBER && x in lists[c] ==>
              x + 2 < |h.mem| && GetClassNo(Size(h, x)) == c && IsFree(h, x)
  {
    forall c, x | 0 <= c < CLASS_NUMBER && x in lists[c]
      ensures x + 2 < |h.mem| && GetClassNo(Size(h, x)) == c && IsFree(h, x)
    {
      assert Entry(h, bs, c, x);
    }
  }

  /**
   * The allocator's invariant with a set `ex` of blocks in transit: the
   * layout holds, the lists are well formed, every free block outside `ex`
   * is on the list of its class, and the blocks of `ex` are on no list.
   * With `ex` empty this is the state between calls that `mm_checkheap` and
   * `check_seg_list` describe.
   */
  predicate Inv(h: Heap, bs: seq<nat>, lists: seq<seq<nat>>, ex: set<nat>)
  {
    && Layout(h, bs)
    && FreeLists(h, bs, lists)
    && (forall i :: 0 <= i < |bs| - 1 && bs[i] !in ex && IsFree(h, bs[i]) ==>
          bs[i] in lists[GetClassNo(Size(h, bs[i]))])
    && (forall x :: x in ex ==> IsBlock(h, bs, x) && x !in lists[GetClassNo(Size(h, x))])
  }

  predicate Wf(h: Heap, bs: seq<nat>, lists: seq<seq<nat>>)
  {
    Inv(h, bs, lists, {})
  }

  // ---------------------------------------------------------------------
  // add_to_free_list
  // ---------------------------------------------------------------------

  /** The conditions under which `add_to_free_list` touches only words inside the heap. */
  predicate CanAdd(h: Heap, b: nat)
  {
    && Sized(h) && b < |h.mem| && BLOCKSIZE_MIN <= Size(h, b) && b + Size(h, b) <= |h.mem|
    && var head := h.seg[GetClassNo(Size(h, b))];
       head == 0 || head == b || (head + 1 < |h.mem| && Outside(head + 1, b, Size(h, b)))
  }

  /**
   * `add_to_free_list`: re-initialise the block as free and push it on the
   * front of its class list.
   */
  function AddToFreeList(h: Heap, b: nat): (r: Heap)
    requires CanAdd(h, b)
    ensures Sized(r) && |r.mem| == |h.mem| && r.limit == h.limit
    ensures r.seg == h.seg[GetClassNo(Size(h, b)) := b]
  {
    var size := Size(h, b);
    var c := GetClassNo(size);
    var h1 := InitBlock(h, b, size);
    var h2 := BlockMark(h1, b, true);
    if h2.seg[c] == 0 then
      h2.(seg := h2.seg[c := b])
    else
      var h3 := SetPred(h2, h2.seg[c], b);
      var h4 := SetSucc(h3, b, h2.seg[c]);
      h4.(seg := h4.seg[c := b])
  }

  /** What `add_to_free_list` leaves in the block and the old head: see `AddToFreeListHead`. */
  predicate AddedHead(h: Heap, b: nat, r: Heap)
    requires CanAdd(h, b)
  {
    var c := GetClassNo(Size(h, b));
    && Sized(r) && |r.mem| == |h.mem| && r.seg == h.seg[c := b]
    && Size(r, b) == Size(h, b) && IsFree(r, b) && r.mem[b + Size(h, b) - 1] == r.mem[b]
    && r.mem[b] == Size(h, b)
    && (h.seg[c] != b ==> PredOf(r, b) == 0 && SuccOf(r, b) == h.seg[c])
    && (h.seg[c] != 0 && h.seg[c] != b ==> PredOf(r, h.seg[c]) == b)
  }

  /** The words `add_to_free_list` leaves alone: see `AddToFreeListFrame`. */
  predicate AddedFrame(h: Heap, b: nat, r: Heap)
    requires CanAdd(h, b)
  {
    && |r.mem| == |h.mem|
    && forall j :: 0 <= j < |h.mem| && Outside(j, b, Size(h, b)) && j != h.seg[GetClassNo(Size(h, b))] + 1 ==>
         r.mem[j] == h.mem[j]
  }

  /**
   * After `add_to_free_list` the block is free with header equal to footer,
   * it heads its class list with a NULL predecessor and the old head as
   * successor, and the old head points back to it.
   */
  lemma AddToFreeListHead(h: Heap, b: nat)
    requires CanAdd(h, b)
    ensures AddedHead(h, b, AddToFreeList(h, b))
  {
    var size := Size(h, b);
    var c := GetClassNo(size);
    var h1 := InitBlock(h, b, size);
    var h2 := BlockMark(h1, b, true);
    assert h2.mem[b] == size && h2.mem[b + size - 1] == size;
    if h2.seg[c] != 0 {
      var head := h2.seg[c];
      var h3 := SetPred(h2, head, b);
      assert h3.mem[b] == size && h3.mem[b + size - 1] == size;
      var h4 := SetSucc(h3, b, head);
      assert h4.mem[b] == size && h4.mem[b + size - 1] == size;
      assert head != b ==> h4.mem[b + 1] == h2.mem[b + 1];
    }
  }

  /** `add_to_free_list` writes only inside the block and the old head's predecessor word. */
  lemma AddToFreeListFrame(h: Heap, b: nat)
    requires CanAdd(h, b)
    ensures AddedFrame(h, b, AddToFreeList(h, b))
  {
    var size := Size(h, b);
    var c := GetClassNo(size);
    var h1 := InitBlock(h, b, size);
    var h2 := BlockMark(h1, b, true);
    assert forall j :: 0 <= j < |h.mem| && Outside(j, b, size) ==> h2.mem[j] == h.mem[j];
  }

  // ---------------------------------------------------------------------
  // delete_block
  // ---------------------------------------------------------------------

  /** The conditions under which `delete_block` touches only words inside the heap. */
  predicate CanDelete(h: Heap, b: nat)
  {
    && Sized(h) && b < |h.mem| && BLOCKSIZE_MIN <= Size(h, b) && b + Size(h, b) <= |h.mem|
    && var prev, next := PredOf(h, b), SuccOf(h, b);
       && (prev != 0 ==> prev + 2 < |h.mem| && Outside(prev + 2, b, Size(h, b)))
       && (next != 0 ==> next + 1 < |h.mem| && Outside(next + 1, b, Size(h, b)))
       && (prev != 0 && next != 0 ==> prev + 1 != next)
  }

  /**
   * `delete_block`: unlink the block from its list, through the class head
   * when its predecessor is NULL and through the predecessor's successor
   * link otherwise, then re-initialise it and mark it allocated.
   */
  function DeleteBlock(h: Heap, b: nat): (r: Heap)
    requires CanDelete(h, b)
    ensures Sized(r) && |r.mem| == |h.mem| && r.limit == h.limit
    ensures r.seg == if PredOf(h, b) == 0 then h.seg[GetClassNo(Size(h, b)) := SuccOf(h, b)] else h.seg
  {
    var prev := PredOf(h, b);
    var next := SuccOf(h, b);
    var h1 :=
      if prev == 0 then
        var c := GetClassNo(Size(h, b));
        if next == 0 then h.(seg := h.seg[c := 0])
        else var g := SetPred(h, next, 0); g.(seg := g.seg[c := next])
      else
        var g := SetSucc(h, prev, next);
        if next != 0 then SetPred(g, next, prev) else g;
    assert h1.mem[b] == h.mem[b];
    var size := Size(h1, b);
    BlockMark(InitBlock(h1, b, size), b, false)
  }

  /** What `delete_block` leaves in the block and its list neighbours: see `DeleteBlockHead`. */
  predicate DeletedHead(h: Heap, b: nat, r: Heap)
    requires CanDelete(h, b)
  {
    var prev, next := PredOf(h, b), SuccOf(h, b);
    && Sized(r) && |r.mem| == |h.mem|
    && r.seg == (if prev == 0 then h.seg[GetClassNo(Size(h, b)) := next] else h.seg)
    && Size(r, b) == Size(h, b) && !IsFree(r, b) && r.mem[b + Size(h, b) - 1] == r.mem[b]
    && (prev != 0 ==> SuccOf(r, prev) == next)
    && (next != 0 ==> PredOf(r, next) == prev)
  }

  /** The words `delete_block` leaves alone: see `DeleteBlockFrame`. */
  predicate DeletedFrame(h: Heap, b: nat, r: Heap)
    requires CanDelete(h, b)
  {
    var prev, next := PredOf(h, b), SuccOf(h, b);
    && |r.mem| == |h.mem|
    && forall j :: (0 <= j < |h.mem| && Outside(j, b, Size(h, b)) && (prev == 0 || j != prev + 2)
                    && (next == 0 || j != next + 1)) ==> r.mem[j] == h.mem[j]
  }

  /**
   * After `delete_block` the block is allocated with its size kept and
   * header equal to footer, its list neighbours are linked to each other,
   * and the class head moves on when the block was the head.
   */
  lemma DeleteBlockHead(h: Heap, b: nat)
    requires CanDelete(h, b)
    ensures DeletedHead(h, b, DeleteBlock(h, b))
  {
    LinkBound(h, b);
  }

  /** `delete_block` writes only inside the block and the neighbours' link words that point past it. */
  lemma DeleteBlockFrame(h: Heap, b: nat)
    requires CanDelete(h, b)
    ensures DeletedFrame(h, b, DeleteBlock(h, b))
  {
  }

  /** A link read back from the heap names a word index below 2^30. */
  lemma LinkBound(h: Heap, b: nat)
    requires b + 2 < |h.mem|
    ensures PredOf(h, b) < SIZE_LIMIT && SuccOf(h, b) < SIZE_LIMIT
  {
  }

  // ---------------------------------------------------------------------
  // The invariant across add_to_free_list and delete_block
  // ---------------------------------------------------------------------

  /** A list stays in place when the link words of its elements are untouched. */
  lemma ListAtFrame(h: Heap, r: Heap, head: nat, xs: seq<nat>)
    requires ListAt(h, head, xs) && |r.mem| >= |h.mem|
    requires forall k :: 0 <= k < |xs| ==> r.mem[xs[k] + 1] == h.mem[xs[k] + 1] && r.mem[xs[k] + 2] == h.mem[xs[k] + 2]
    ensures ListAt(r, head, xs)
  {
  }

  /** The list head of class c, when there is one, is a real block of that class. */
  lemma HeadFacts(h: Heap, bs: seq<nat>, lists: seq<seq<nat>>, c: nat)
    requires Layout(h, bs) && FreeLists(h, bs, lists) && c < CLASS_NUMBER
    ensures h.seg[c] == 0 <==> lists[c] == []
    ensures h.seg[c] != 0 ==> h.seg[c] == lists[c][0] && Entry(h, bs, c, h.seg[c])
  {
    assert ListAt(h, h.seg[c], lists[c]);
    if lists[c] != [] {
      assert lists[c][0] in lists[c];
      BlockFacts(h, bs, lists[c][0]);
    }
  }

  /** Pushing a block in transit keeps the layout, and every other header and footer. */
  lemma AddKeepsLayout(h: Heap, bs: seq<nat>, b: nat, r: Heap)
    requires Layout(h, bs) && IsBlock(h, bs, b)
    requires var head := h.seg[GetClassNo(Size(h, b))]; head == 0 || (IsBlock(h, bs, head) && head != b)
    requires CanAdd(h, b) && AddedHead(h, b, r) && AddedFrame(h, b, r)
    ensures Layout(r, bs)
    ensures KeepsHeaders(h, r, bs, b)
  {
    BlockFacts(h, bs, b);
    var c := GetClassNo(Size(h, b));
    var head := h.seg[c];
    if head != 0 {
      BlockFacts(h, bs, head);
      Separate(h, bs, b, head);
    }
    forall i | 0 <= i < |bs| && bs[i] != b
      ensures r.mem[bs[i]] == h.mem[bs[i]]
      ensures i < |bs| - 1 ==> r.mem[bs[i] + Size(h, bs[i]) - 1] == h.mem[bs[i] + Size(h, bs[i]) - 1]
    {
      TagsOutside(h, bs, b, i);
      LayoutBounds(h, bs, i);
      if head != 0 && bs[i] != head {
        TagsOutside(h, bs, head, i);
      }
      assert bs[i] < |h.mem| && Outside(bs[i], b, Size(h, b)) && bs[i] != head + 1;
    }
    LayoutKeep(h, r, bs, b);
  }

  /** The words of list members other than the pushed block and the old head survive a push. */
  lemma AddKeepsMembers(h: Heap, bs: seq<nat>, lists: seq<seq<nat>>, b: nat, r: Heap)
    requires Layout(h, bs) && FreeLists(h, bs, lists) && IsBlock(h, bs, b)
    requires b !in lists[GetClassNo(Size(h, b))]
    requires CanAdd(h, b) && AddedFrame(h, b, r)
    ensures forall c', k :: 0 <= c' < CLASS_NUMBER && 0 <= k < |lists[c']| ==>
      var x := lists[c'][k];
      && x != b && x + 2 < |h.mem|
      && r.mem[x] == h.mem[x] && r.mem[x + 2] == h.mem[x + 2]
      && (x != h.seg[GetClassNo(Size(h, b))] ==> r.mem[x + 1] == h.mem[x + 1])
  {
    var c := GetClassNo(Size(h, b));
    var head := h.seg[c];
    HeadFacts(h, bs, lists, c);
    BlockFacts(h, bs, b);
    forall c', k | 0 <= c' < CLASS_NUMBER && 0 <= k < |lists[c']|
      ensures lists[c'][k] != b && lists[c'][k] + 2 < |h.mem|
      ensures r.mem[lists[c'][k]] == h.mem[lists[c'][k]] && r.mem[lists[c'][k] + 2] == h.mem[lists[c'][k] + 2]
      ensures lists[c'][k] != head ==> r.mem[lists[c'][k] + 1] == h.mem[lists[c'][k] + 1]
    {
      var x := lists[c'][k];
      assert x in lists[c'];
      assert Entry(h, bs, c', x);
      BlockFacts(h, bs, x);
      Separate(h, bs, x, b);
      if head != 0 && x != head {
        Separate(h, bs, x, head);
      }
    }
  }

  /** Lists of other classes do not contain the head of class c. */
  lemma OtherClassNotHead(h: Heap, bs: seq<nat>, lists: seq<seq<nat>>, c: nat, c': nat)
    requires Layout(h, bs) && FreeLists(h, bs, lists) && c < CLASS_NUMBER && c' < CLASS_NUMBER && c != c'
    ensures forall k :: 0 <= k < |lists[c']| ==> lists[c'][k] != h.seg[c]
  {
    HeadFacts(h, bs, lists, c);
    forall k | 0 <= k < |lists[c']|
      ensures lists[c'][k] != h.seg[c]
    {
      assert lists[c'][k] in lists[c'];
      assert Entry(h, bs, c', lists[c'][k]);
      BlockFacts(h, bs, lists[c'][k]);
    }
  }

  /** Pushing a block that is on no list yields the lists with the block in front of its class. */
  lemma AddKeepsLists(h: Heap, bs: seq<nat>, lists: seq<seq<nat>>, b: nat, r: Heap)
    requires Layout(h, bs) && FreeLists(h, bs, lists) && IsBlock(h, bs, b)
    requires b !in lists[GetClassNo(Size(h, b))]
    requires CanAdd(h, b) && AddedHead(h, b, r) && AddedFrame(h, b, r)
    ensures var c := GetClassNo(Size(h, b)); FreeLists(r, bs, lists[c := [b] + lists[c]])
  {
    var c := GetClassNo(Size(h, b));
    var L := lists[c];
    var head := h.seg[c];
    HeadFacts(h, bs, lists, c);
    BlockFacts(h, bs, b);
    AddKeepsMembers(h, bs, lists, b, r);
    AddKeepsOtherLists(h, bs, lists, b, r);
    assert ListAt(h, head, L) && NoDup(L);
    AddKeepsClassList(h, head, L, b, r);
    NoDupCons(b, L);
    AddKeepsEntries(h, bs, lists, b, r);
    var L' := lists[c := [b] + L];
    forall c' | 0 <= c' < CLASS_NUMBER
      ensures ListAt(r, r.seg[c'], L'[c']) && NoDup(L'[c'])
    {
      if c' == c {
        assert r.seg[c'] == b && L'[c'] == [b] + L;
      } else {
        assert L'[c'] == lists[c'];
      }
    }
  }

  /** The lists of the other classes survive a push unchanged. */
  lemma AddKeepsOtherLists(h: Heap, bs: seq<nat>, lists: seq<seq<nat>>, b: nat, r: Heap)
    requires Layout(h, bs) && FreeLists(h, bs, lists) && IsBlock(h, bs, b)
    requires b !in lists[GetClassNo(Size(h, b))]
    requires CanAdd(h, b) && AddedHead(h, b, r) && AddedFrame(h, b, r)
    ensures forall c' :: 0 <= c' < CLASS_NUMBER && c' != GetClassNo(Size(h, b)) ==> ListAt(r, r.seg[c'], lists[c'])
  {
    var c := GetClassNo(Size(h, b));
    AddKeepsMembers(h, bs, lists, b, r);
    forall c' | 0 <= c' < CLASS_NUMBER && c' != c
      ensures ListAt(r, r.seg[c'], lists[c'])
    {
      OtherClassNotHead(h, bs, lists, c, c');
      ListAtFrame(h, r, h.seg[c'], lists[c']);
    }
  }

  /** After a push every listed block, the pushed one included, is still a free block of its class. */
  lemma AddKeepsEntries(h: Heap, bs: seq<nat>, lists: seq<seq<nat>>, b: nat, r: Heap)
    requires Layout(h, bs) && FreeLists(h, bs, lists) && IsBlock(h, bs, b)
    requires b !in lists[GetClassNo(Size(h, b))]
    requires CanAdd(h, b) && AddedHead(h, b, r) && AddedFrame(h, b, r)
    ensures var c := GetClassNo(Size(h, b));
      forall c', x :: 0 <= c' < CLASS_NUMBER && x in lists[c := [b] + lists[c]][c'] ==> Entry(r, bs, c', x)
  {
    var c := GetClassNo(Size(h, b));
    var lists' := lists[c := [b] + lists[c]];
    BlockFacts(h, bs, b);
    AddKeepsMembers(h, bs, lists, b, r);
    forall c', x | 0 <= c' < CLASS_NUMBER && x in lists'[c']
      ensures Entry(r, bs, c', x)
    {
      if x != b {
        assert x in lists[c'];
        assert Entry(h, bs, c', x);
        var k :| 0 <= k < |lists[c']| && lists[c'][k] == x;
      }
    }
  }


  /** The pushed block's own class list: the block, then the old list. */
  lemma AddKeepsClassList(h: Heap, head: nat, L: seq<nat>, b: nat, r: Heap)
    requires ListAt(h, head, L) && b !in L && |r.mem| == |h.mem| && b + 2 < |h.mem|
    requires PredOf(r, b) == 0 && SuccOf(r, b) == head
    requires L != [] ==> head + 1 < |h.mem| && PredOf(r, head) == b
    requires forall k :: 0 <= k < |L| ==>
      && L[k] + 2 < |h.mem| && r.mem[L[k] + 2] == h.mem[L[k] + 2]
      && (k > 0 ==> r.mem[L[k] + 1] == h.mem[L[k] + 1])
    ensures ListAt(r, b, [b] + L)
  {
    var xs := [b] + L;
    assert xs[0] == b;
    forall k | 0 <= k < |xs|
      ensures xs[k] + 2 < |r.mem|
      ensures SuccOf(r, xs[k]) == (if k + 1 < |xs| then xs[k + 1] else 0)
      ensures PredOf(r, xs[k]) == (if k > 0 then xs[k - 1] else 0)
    {
      if k > 0 {
        var j := k - 1;
        assert xs[k] == L[j];
        assert L[j] + 2 < |h.mem| && r.mem[L[j] + 2] == h.mem[L[j] + 2];
        ListAtAt(h, head, L, j);
        if j == 0 {
          assert L[j] == head;
        } else {
          assert r.mem[L[j] + 1] == h.mem[L[j] + 1];
          assert xs[k - 1] == L[j - 1];
        }
        if j + 1 < |L| {
          assert xs[k + 1] == L[j + 1];
        }
      } else if L != [] {
        assert xs[1] == L[0] == head;
      }
    }
    assert b == (if |xs| == 0 then 0 else xs[0]);
    ListAtIntro(r, b, xs);
  }

  /**
   * `add_to_free_list` on a block in transit: the heap stays coherent, the
   * block joins the front of its class list and leaves the transit set,
   * and no other block's header changes.
   */
  lemma AddToFreeListInv(h: Heap, bs: seq<nat>, lists: seq<seq<nat>>, ex: set<nat>, b: nat)
    requires Inv(h, bs, lists, ex) && b in ex
    ensures CanAdd(h, b)
    ensures var r, c := AddToFreeList(h, b), GetClassNo(Size(h, b));
      && Inv(r, bs, lists[c := [b] + lists[c]], ex - {b})
      && Size(r, b) == Size(h, b) && IsFree(r, b)
      && KeepsHeaders(h, r, bs, b)
  {
    var c := GetClassNo(Size(h, b));
    var head := h.seg[c];
    BlockFacts(h, bs, b);
    HeadFacts(h, bs, lists, c);
    if head != 0 {
      assert head in lists[c];
      Separate(h, bs, b, head);
    }
    var r := AddToFreeList(h, b);
    AddToFreeListHead(h, b);
    AddToFreeListFrame(h, b);
    AddKeepsLayout(h, bs, b, r);
    AddKeepsLists(h, bs, lists, b, r);
    AddKeepsCoherence(h, bs, lists, ex, b, r);
  }

  /** The free blocks stay on their lists, and the rest of the transit set off them. */
  lemma AddKeepsCoherence(h: Heap, bs: seq<nat>, lists: seq<seq<nat>>, ex: set<nat>, b: nat, r: Heap)
    requires Inv(h, bs, lists, ex) && b in ex && Layout(r, bs)
    requires Size(r, b) == Size(h, b) && IsFree(r, b)
    requires KeepsHeaders(h, r, bs, b)
    ensures var c := GetClassNo(Size(h, b)); var lists' := lists[c := [b] + lists[c]];
      && (forall i :: 0 <= i < |bs| - 1 && bs[i] !in ex - {b} && IsFree(r, bs[i]) ==>
            bs[i] in lists'[GetClassNo(Size(r, bs[i]))])
      && (forall x :: x in ex - {b} ==> IsBlock(r, bs, x) && x !in lists'[GetClassNo(Size(r, x))])
  {
    var c := GetClassNo(Size(h, b));
    var lists' := lists[c := [b] + lists[c]];
    forall i | 0 <= i < |bs| - 1 && bs[i] !in ex - {b} && IsFree(r, bs[i])
      ensures bs[i] in lists'[GetClassNo(Size(r, bs[i]))]
    {
      if bs[i] == b {
        assert b in [b] + lists[c];
      } else {
        assert bs[i] in lists[GetClassNo(Size(h, bs[i]))];
      }
    }
    forall x | x in ex - {b}
      ensures IsBlock(r, bs, x) && x !in lists'[GetClassNo(Size(r, x))]
    {
      var i := BlockIndex(h, bs, x);
      assert r.mem[x] == h.mem[x];
    }
  }

  // ---------------------------------------------------------------------
  // The invariant across delete_block
  // ---------------------------------------------------------------------



  /** What unlinking position k of L from a heap h leaves in heap r. */
  predicate Unlinked(h: Heap, L: seq<nat>, k: nat, r: Heap)
    requires k < |L|
  {
    && |r.mem| == |h.mem|
    && (k > 0 ==> L[k - 1] + 2 < |r.mem| && SuccOf(r, L[k - 1]) == (if k + 1 < |L| then L[k + 1] else 0))
    && (k + 1 < |L| ==> L[k + 1] + 1 < |r.mem| && PredOf(r, L[k + 1]) == (if k > 0 then L[k - 1] else 0))
    && forall j :: 0 <= j < |L| && j != k ==>
      && L[j] + 2 < |h.mem|
      && (j + 1 != k ==> r.mem[L[j] + 2] == h.mem[L[j] + 2])
      && (j != k + 1 ==> r.mem[L[j] + 1] == h.mem[L[j] + 1])
  }

  /** Unlinking the element at position k of a list leaves the list without it. */
  lemma DeleteKeepsClassList(h: Heap, head: nat, L: seq<nat>, k: nat, r: Heap, head': nat)
    requires ListAt(h, head, L) && k < |L| && Unlinked(h, L, k, r)
    requires head' == if k == 0 then (if 1 < |L| then L[1] else 0) else head
    ensures ListAt(r, head', RemoveAt(L, k))
  {
    DeleteKeepsElements(h, head, L, k, r);
    DeleteHead(h, head, L, k, head');
    ListAtIntro(r, head', RemoveAt(L, k));
  }

  /** The head after unlinking position k is the first element left. */
  lemma DeleteHead(h: Heap, head: nat, L: seq<nat>, k: nat, head': nat)
    requires ListAt(h, head, L) && k < |L|
    requires head' == if k == 0 then (if 1 < |L| then L[1] else 0) else head
    ensures var xs := RemoveAt(L, k); head' == if |xs| == 0 then 0 else xs[0]
  {
    var xs := RemoveAt(L, k);
    if xs != [] {
      assert xs[0] == L[if k == 0 then 1 else 0];
    }
  }

  lemma DeleteKeepsElements(h: Heap, head: nat, L: seq<nat>, k: nat, r: Heap)
    requires ListAt(h, head, L) && k < |L| && Unlinked(h, L, k, r)
    ensures var xs := RemoveAt(L, k);
      forall i :: 0 <= i < |xs| ==>
        xs[i] + 2 < |r.mem| && SuccOf(r, xs[i]) == NextIn(xs, i) && PredOf(r, xs[i]) == PrevIn(xs, i)
  {
    var xs := RemoveAt(L, k);
    forall i | 0 <= i < |xs|
      ensures xs[i] + 2 < |r.mem| && SuccOf(r, xs[i]) == NextIn(xs, i) && PredOf(r, xs[i]) == PrevIn(xs, i)
    {
      DeleteKeepsElement(h, head, L, k, r, i);
    }
  }

  lemma DeleteKeepsElement(h: Heap, head: nat, L: seq<nat>, k: nat, r: Heap, i: nat)
    requires ListAt(h, head, L) && k < |L| && Unlinked(h, L, k, r) && i < |L| - 1
    ensures var xs := RemoveAt(L, k);
      && xs[i] + 2 < |r.mem|
      && SuccOf(r, xs[i]) == (if i + 1 < |xs| then xs[i + 1] else 0)
      && PredOf(r, xs[i]) == (if i > 0 then xs[i - 1] else 0)
  {
    DeleteKeepsSucc(h, head, L, k, r, i);
    DeleteKeepsPred(h, head, L, k, r, i);
  }

  lemma DeleteKeepsSucc(h: Heap, head: nat, L: seq<nat>, k: nat, r: Heap, i: nat)
    requires ListAt(h, head, L) && k < |L| && Unlinked(h, L, k, r) && i < |L| - 1
    ensures var xs := RemoveAt(L, k);
      xs[i] + 2 < |r.mem| && SuccOf(r, xs[i]) == (if i + 1 < |xs| then xs[i + 1] else 0)
  {
    var xs := RemoveAt(L, k);
    if i + 1 < k {
      assert xs[i] == L[i] && xs[i + 1] == L[i + 1];
      ListAtAt(h, head, L, i);
      assert r.mem[L[i] + 2] == h.mem[L[i] + 2];
    } else if i + 1 == k {
      assert xs[i] == L[k - 1];
      if i + 1 < |xs| {
        assert xs[i + 1] == L[k + 1];
      }
    } else {
      assert xs[i] == L[i + 1];
      ListAtAt(h, head, L, i + 1);
      assert r.mem[L[i + 1] + 2] == h.mem[L[i + 1] + 2];
      if i + 1 < |xs| {
        assert xs[i + 1] == L[i + 2];
      }
    }
  }

  lemma DeleteKeepsPred(h: Heap, head: nat, L: seq<nat>, k: nat, r: Heap, i: nat)
    requires ListAt(h, head, L) && k < |L| && Unlinked(h, L, k, r) && i < |L| - 1
    ensures var xs := RemoveAt(L, k);
      xs[i] + 1 < |r.mem| && PredOf(r, xs[i]) == (if i > 0 then xs[i - 1] else 0)
  {
    var xs := RemoveAt(L, k);
    if i < k {
      assert xs[i] == L[i];
      ListAtAt(h, head, L, i);
      assert r.mem[L[i] + 1] == h.mem[L[i] + 1];
      if i > 0 {
        assert xs[i - 1] == L[i - 1];
      }
    } else if i == k {
      assert xs[i] == L[k + 1];
      ListAtAt(h, head, L, k + 1);
      if i > 0 {
        assert xs[i - 1] == L[k - 1];
      }
    } else {
      assert xs[i] == L[i + 1] && xs[i - 1] == L[i];
      ListAtAt(h, head, L, i + 1);
      assert r.mem[L[i + 1] + 1] == h.mem[L[i + 1] + 1];
    }
  }

  /** Neighbours on a class list are distinct real blocks. */
  lemma ListNeighbours(h: Heap, bs: seq<nat>, lists: seq<seq<nat>>, c: nat, k: nat)
    requires Layout(h, bs) && FreeLists(h, bs, lists) && c < CLASS_NUMBER && k < |lists[c]|
    ensures var L := lists[c];
      && ListAt(h, h.seg[c], L) && NoDup(L)
      && Entry(h, bs, c, L[k])
      && (k > 0 ==> Entry(h, bs, c, L[k - 1]) && FIRST <= L[k - 1])
      && (k + 1 < |L| ==> Entry(h, bs, c, L[k + 1]) && FIRST <= L[k + 1])
      && PredOf(h, L[k]) == (if k > 0 then L[k - 1] else 0)
      && SuccOf(h, L[k]) == (if k + 1 < |L| then L[k + 1] else 0)
  {
    var L := lists[c];
    assert ListAt(h, h.seg[c], L) && NoDup(L);
    ListAtAt(h, h.seg[c], L, k);
    assert L[k] in L;
    if k > 0 {
      assert L[k - 1] in L;
      BlockFacts(h, bs, L[k - 1]);
    }
    if k + 1 < |L| {
      assert L[k + 1] in L;
      BlockFacts(h, bs, L[k + 1]);
    }
  }

  /** A listed block can be unlinked without `delete_block` writing outside the heap. */
  lemma DeleteAllowed(h: Heap, bs: seq<nat>, lists: seq<seq<nat>>, b: nat)
    requires Layout(h, bs) && FreeLists(h, bs, lists) && IsBlock(h, bs, b)
    requires b in lists[GetClassNo(Size(h, b))]
    ensures CanDelete(h, b)
    ensures var prev, next := PredOf(h, b), SuccOf(h, b);
      && (prev != 0 ==> IsBlock(h, bs, prev) && prev != b)
      && (next != 0 ==> IsBlock(h, bs, next) && next != b)
      && (prev != 0 && next != 0 ==> prev != next)
  {
    var c := GetClassNo(Size(h, b));
    var L := lists[c];
    var k := IndexOf(L, b);
    ListNeighbours(h, bs, lists, c, k);
    BlockFacts(h, bs, b);
    var prev, next := PredOf(h, b), SuccOf(h, b);
    if prev != 0 {
      BlockFacts(h, bs, prev);
      Separate(h, bs, b, prev);
    }
    if next != 0 {
      BlockFacts(h, bs, next);
      Separate(h, bs, b, next);
    }
    if prev != 0 && next != 0 {
      assert k - 1 != k + 1;
      Separate(h, bs, prev, next);
    }
  }

  /** Unlinking a listed block keeps the layout, and every other header and footer. */
  lemma DeleteKeepsLayout(h: Heap, bs: seq<nat>, b: nat, r: Heap)
    requires Layout(h, bs) && IsBlock(h, bs, b) && CanDelete(h, b)
    requires var prev, next := PredOf(h, b), SuccOf(h, b);
      && (prev != 0 ==> IsBlock(h, bs, prev) && prev != b)
      && (next != 0 ==> IsBlock(h, bs, next) && next != b)
    requires DeletedHead(h, b, r) && DeletedFrame(h, b, r)
    ensures Layout(r, bs)
    ensures KeepsHeaders(h, r, bs, b)
  {
    BlockFacts(h, bs, b);
    var prev, next := PredOf(h, b), SuccOf(h, b);
    if prev != 0 {
      BlockFacts(h, bs, prev);
    }
    if next != 0 {
      BlockFacts(h, bs, next);
    }
    forall i | 0 <= i < |bs| && bs[i] != b
      ensures r.mem[bs[i]] == h.mem[bs[i]]
      ensures i < |bs| - 1 ==> r.mem[bs[i] + Size(h, bs[i]) - 1] == h.mem[bs[i] + Size(h, bs[i]) - 1]
    {
      TagsOutside(h, bs, b, i);
      LayoutBounds(h, bs, i);
      if prev != 0 && bs[i] != prev {
        TagsOutside(h, bs, prev, i);
      }
      if next != 0 && bs[i] != next {
        TagsOutside(h, bs, next, i);
      }
    }
    LayoutKeep(h, r, bs, b);
  }

  /** The header and link words of a block other than the unlinked one survive the unlink, bar the neighbours' links. */
  lemma DeleteKeepsWords(h: Heap, bs: seq<nat>, b: nat, r: Heap, x: nat)
    requires Layout(h, bs) && IsBlock(h, bs, b) && CanDelete(h, b)
    requires var prev, next := PredOf(h, b), SuccOf(h, b);
      && (prev != 0 ==> IsBlock(h, bs, prev) && prev != b)
      && (next != 0 ==> IsBlock(h, bs, next) && next != b)
    requires DeletedFrame(h, b, r) && IsBlock(h, bs, x) && x != b
    ensures var prev, next := PredOf(h, b), SuccOf(h, b);
      && FIRST <= x && x + 2 < |h.mem| && r.mem[x] == h.mem[x]
      && (x != prev ==> r.mem[x + 2] == h.mem[x + 2])
      && (x != next ==> r.mem[x + 1] == h.mem[x + 1])
  {
    var prev, next := PredOf(h, b), SuccOf(h, b);
    BlockFacts(h, bs, b);
    BlockFacts(h, bs, x);
    Separate(h, bs, x, b);
    if prev != 0 && x != prev {
      Separate(h, bs, x, prev);
    }
    if next != 0 && x != next {
      Separate(h, bs, x, next);
    }
  }

  /** The unlinked block's class list loses exactly that block. */
  lemma DeleteKeepsClass(h: Heap, bs: seq<nat>, lists: seq<seq<nat>>, b: nat, r: Heap)
    requires Layout(h, bs) && FreeLists(h, bs, lists) && IsBlock(h, bs, b)
    requires b in lists[GetClassNo(Size(h, b))]
    requires CanDelete(h, b) && DeletedHead(h, b, r) && DeletedFrame(h, b, r)
    ensures var c := GetClassNo(Size(h, b)); var L := lists[c]; var k := IndexOf(L, b);
      ListAt(r, r.seg[c], RemoveAt(L, k)) && NoDup(RemoveAt(L, k))
  {
    var c := GetClassNo(Size(h, b));
    var L := lists[c];
    var k := IndexOf(L, b);
    ListNeighbours(h, bs, lists, c, k);
    DeleteUnlinks(h, bs, lists, b, r);
    DeleteKeepsClassList(h, h.seg[c], L, k, r, r.seg[c]);
    RemoveNoDup(L, k);
  }

  /** `delete_block` unlinks the block from its position in its class list. */
  lemma DeleteUnlinks(h: Heap, bs: seq<nat>, lists: seq<seq<nat>>, b: nat, r: Heap)
    requires Layout(h, bs) && FreeLists(h, bs, lists) && IsBlock(h, bs, b)
    requires b in lists[GetClassNo(Size(h, b))]
    requires CanDelete(h, b) && DeletedHead(h, b, r) && DeletedFrame(h, b, r)
    ensures var L := lists[GetClassNo(Size(h, b))]; Unlinked(h, L, IndexOf(L, b), r)
  {
    var c := GetClassNo(Size(h, b));
    var L := lists[c];
    var k := IndexOf(L, b);
    ListNeighbours(h, bs, lists, c, k);
    DeleteAllowed(h, bs, lists, b);
    forall j | 0 <= j < |L| && j != k
      ensures L[j] + 2 < |h.mem|
      ensures j + 1 != k ==> r.mem[L[j] + 2] == h.mem[L[j] + 2]
      ensures j != k + 1 ==> r.mem[L[j] + 1] == h.mem[L[j] + 1]
    {
      assert L[j] in L;
      assert Entry(h, bs, c, L[j]);
      UnlinkedWords(h, bs, b, r, L, k, j);
    }
    var prev, next := PredOf(h, b), SuccOf(h, b);
    if k > 0 {
      assert prev == L[k - 1] && prev != 0;
      assert SuccOf(r, L[k - 1]) == next;
    }
    if k + 1 < |L| {
      assert next == L[k + 1] && next != 0;
      assert PredOf(r, L[k + 1]) == prev;
    }
    assert Unlinked(h, L, k, r);
  }

  lemma UnlinkedWords(h: Heap, bs: seq<nat>, b: nat, r: Heap, L: seq<nat>, k: nat, j: nat)
    requires Layout(h, bs) && IsBlock(h, bs, b) && CanDelete(h, b)
    requires var prev, next := PredOf(h, b), SuccOf(h, b);
      && (prev != 0 ==> IsBlock(h, bs, prev) && prev != b)
      && (next != 0 ==> IsBlock(h, bs, next) && next != b)
    requires DeletedFrame(h, b, r)
    requires NoDup(L) && k < |L| && L[k] == b && j < |L| && j != k && IsBlock(h, bs, L[j])
    requires PredOf(h, b) == (if k > 0 then L[k - 1] else 0)
    requires SuccOf(h, b) == (if k + 1 < |L| then L[k + 1] else 0)
    ensures L[j] + 2 < |h.mem|
    ensures j + 1 != k ==> r.mem[L[j] + 2] == h.mem[L[j] + 2]
    ensures j != k + 1 ==> r.mem[L[j] + 1] == h.mem[L[j] + 1]
  {
    NoDupAt(L, j, k);
    DeleteKeepsWords(h, bs, b, r, L[j]);
    if k > 0 && j + 1 != k {
      NoDupAt(L, j, k - 1);
    }
    if k + 1 < |L| && j != k + 1 {
      NoDupAt(L, j, k + 1);
    }
  }


  /** The lists of the other classes survive an unlink unchanged. */
  lemma DeleteKeepsOtherLists(h: Heap, bs: seq<nat>, lists: seq<seq<nat>>, b: nat, r: Heap)
    requires Layout(h, bs) && FreeLists(h, bs, lists) && IsBlock(h, bs, b)
    requires b in lists[GetClassNo(Size(h, b))]
    requires CanDelete(h, b) && DeletedHead(h, b, r) && DeletedFrame(h, b, r)
    ensures forall c' :: 0 <= c' < CLASS_NUMBER && c' != GetClassNo(Size(h, b)) ==> ListAt(r, r.seg[c'], lists[c'])
  {
    forall c' | 0 <= c' < CLASS_NUMBER && c' != GetClassNo(Size(h, b))
      ensures ListAt(r, r.seg[c'], lists[c'])
    {
      DeleteKeepsOtherList(h, bs, lists, b, r, c');
    }
  }

  lemma DeleteKeepsOtherList(h: Heap, bs: seq<nat>, lists: seq<seq<nat>>, b: nat, r: Heap, c': nat)
    requires Layout(h, bs) && FreeLists(h, bs, lists) && IsBlock(h, bs, b)
    requires b in lists[GetClassNo(Size(h, b))]
    requires CanDelete(h, b) && DeletedHead(h, b, r) && DeletedFrame(h, b, r)
    requires c' < CLASS_NUMBER && c' != GetClassNo(Size(h, b))
    ensures ListAt(r, r.seg[c'], lists[c'])
  {
    var L := lists[c'];
    forall x | x in L
      ensures x + 2 < |r.mem| && r.mem[x + 1] == h.mem[x + 1] && r.mem[x + 2] == h.mem[x + 2]
    {
      DeleteKeepsOther(h, bs, lists, b, r, c', x);
    }
    assert ListAt(h, h.seg[c'], L);
    assert r.seg[c'] == h.seg[c'];
    ListAtFrameIn(h, r, h.seg[c'], L);
  }

  /** `ListAtFrame` with the kept links given per member rather than per position. */
  lemma ListAtFrameIn(h: Heap, r: Heap, head: nat, xs: seq<nat>)
    requires ListAt(h, head, xs) && |r.mem| >= |h.mem|
    requires forall x :: x in xs ==> x + 2 < |r.mem| && r.mem[x + 1] == h.mem[x + 1] && r.mem[x + 2] == h.mem[x + 2]
    ensures ListAt(r, head, xs)
  {
    forall k | 0 <= k < |xs|
      ensures r.mem[xs[k] + 1] == h.mem[xs[k] + 1] && r.mem[xs[k] + 2] == h.mem[xs[k] + 2]
    {
      assert xs[k] in xs;
    }
    ListAtFrame(h, r, head, xs);
  }

  /** An unlink leaves the links of a block on another class's list alone. */
  lemma DeleteKeepsOther(h: Heap, bs: seq<nat>, lists: seq<seq<nat>>, b: nat, r: Heap, c': nat, x: nat)
    requires Layout(h, bs) && FreeLists(h, bs, lists) && IsBlock(h, bs, b)
    requires b in lists[GetClassNo(Size(h, b))]
    requires CanDelete(h, b) && DeletedFrame(h, b, r)
    requires c' < CLASS_NUMBER && c' != GetClassNo(Size(h, b)) && x in lists[c']
    ensures x + 2 < |h.mem| && x + 2 < |r.mem|
    ensures r.mem[x + 1] == h.mem[x + 1] && r.mem[x + 2] == h.mem[x + 2]
  {
    var c := GetClassNo(Size(h, b));
    var L := lists[c];
    var k := IndexOf(L, b);
    ListNeighbours(h, bs, lists, c, k);
    DeleteAllowed(h, bs, lists, b);
    var prev, next := PredOf(h, b), SuccOf(h, b);
    assert Entry(h, bs, c', x);
    assert GetClassNo(Size(h, x)) == c';
    if k > 0 {
      assert Entry(h, bs, c, prev);
    }
    if k + 1 < |L| {
      assert Entry(h, bs, c, next);
    }
    BlockFacts(h, bs, x);
    assert x != b && x != prev && x != next;
    DeleteKeepsWords(h, bs, b, r, x);
  }

  /** After an unlink every block left on a list is still a free block of its class. */
  lemma DeleteKeepsEntries(h: Heap, bs: seq<nat>, lists: seq<seq<nat>>, b: nat, r: Heap)
    requires Layout(h, bs) && FreeLists(h, bs, lists) && IsBlock(h, bs, b)
    requires b in lists[GetClassNo(Size(h, b))]
    requires Layout(r, bs)
    requires KeepsHeaders(h, r, bs, b)
    ensures var c := GetClassNo(Size(h, b)); var L := lists[c];
      forall c', x :: 0 <= c' < CLASS_NUMBER && x in lists[c := RemoveAt(L, IndexOf(L, b))][c'] ==> Entry(r, bs, c', x)
  {
    var c := GetClassNo(Size(h, b));
    var L := lists[c];
    var k := IndexOf(L, b);
    var lists' := lists[c := RemoveAt(L, k)];
    assert ListAt(h, h.seg[c], L) && NoDup(L);
    RemoveNoDup(L, k);
    forall c', x | 0 <= c' < CLASS_NUMBER && x in lists'[c']
      ensures Entry(r, bs, c', x)
    {
      assert x in lists[c'] && x != b;
      assert Entry(h, bs, c', x);
      var i := BlockIndex(h, bs, x);
    }
  }

  /** The free blocks stay on their lists after an unlink, and the transit set off them. */
  lemma DeleteKeepsCoherence(h: Heap, bs: seq<nat>, lists: seq<seq<nat>>, ex: set<nat>, b: nat, r: Heap)
    requires Inv(h, bs, lists, ex) && IsBlock(h, bs, b) && b in lists[GetClassNo(Size(h, b))] && Layout(r, bs)
    requires !IsFree(r, b)
    requires KeepsHeaders(h, r, bs, b)
    ensures var c := GetClassNo(Size(h, b)); var L := lists[c]; var lists' := lists[c := RemoveAt(L, IndexOf(L, b))];
      && (forall i :: 0 <= i < |bs| - 1 && bs[i] !in ex && IsFree(r, bs[i]) ==>
            bs[i] in lists'[GetClassNo(Size(r, bs[i]))])
      && (forall x :: x in ex ==> IsBlock(r, bs, x) && x !in lists'[GetClassNo(Size(r, x))])
  {
    var c := GetClassNo(Size(h, b));
    var L := lists[c];
    var k := IndexOf(L, b);
    var lists' := lists[c := RemoveAt(L, k)];
    assert ListAt(h, h.seg[c], L) && NoDup(L);
    RemoveNoDup(L, k);
    forall i | 0 <= i < |bs| - 1 && bs[i] !in ex && IsFree(r, bs[i])
      ensures bs[i] in lists'[GetClassNo(Size(r, bs[i]))]
    {
      assert bs[i] != b;
      assert bs[i] in lists[GetClassNo(Size(h, bs[i]))];
    }
    forall x | x in ex
      ensures IsBlock(r, bs, x) && x !in lists'[GetClassNo(Size(r, x))]
    {
      var i := BlockIndex(h, bs, x);
      assert x != b;
      assert r.mem[x] == h.mem[x];
    }
  }

  /**
   * `delete_block` on a listed block: the heap stays coherent, the block
   * leaves its class list and is marked allocated, and no other block's
   * header changes.
   */
  lemma DeleteBlockInv(h: Heap, bs: seq<nat>, lists: seq<seq<nat>>, ex: set<nat>, b: nat)
    requires Inv(h, bs, lists, ex) && IsBlock(h, bs, b) && b in lists[GetClassNo(Size(h, b))]
    ensures CanDelete(h, b)
    ensures var r, c := DeleteBlock(h, b), GetClassNo(Size(h, b)); var L := lists[c];
      && Inv(r, bs, lists[c := RemoveAt(L, IndexOf(L, b))], ex)
      && Size(r, b) == Size(h, b) && !IsFree(r, b)
      && KeepsHeaders(h, r, bs, b)
  {
    DeleteAllowed(h, bs, lists, b);
    DeleteBlockHead(h, b);
    DeleteBlockFrame(h, b);
    DeleteInvAt(h, bs, lists, ex, b, DeleteBlock(h, b));
  }

  /** `DeleteBlockInv` for any heap with the effect of `delete_block`. */
  lemma DeleteInvAt(h: Heap, bs: seq<nat>, lists: seq<seq<nat>>, ex: set<nat>, b: nat, r: Heap)
    requires Inv(h, bs, lists, ex) && IsBlock(h, bs, b) && b in lists[GetClassNo(Size(h, b))]
    requires CanDelete(h, b) && DeletedHead(h, b, r) && DeletedFrame(h, b, r)
    ensures var c := GetClassNo(Size(h, b)); var L := lists[c];
      && Inv(r, bs, lists[c := RemoveAt(L, IndexOf(L, b))], ex)
      && Size(r, b) == Size(h, b) && !IsFree(r, b)
      && KeepsHeaders(h, r, bs, b)
  {
    var c := GetClassNo(Size(h, b));
    var L := lists[c];
    var k := IndexOf(L, b);
    var lists' := lists[c := RemoveAt(L, k)];
    DeleteAllowed(h, bs, lists, b);
    DeleteKeepsLayout(h, bs, b, r);
    DeleteKeepsFreeLists(h, bs, lists, b, r);
    DeleteKeepsCoherence(h, bs, lists, ex, b, r);
  }

  /** After `delete_block` every class list is still in place, the class of `b` without `b`. */
  lemma DeleteKeepsFreeLists(h: Heap, bs: seq<nat>, lists: seq<seq<nat>>, b: nat, r: Heap)
    requires Layout(h, bs) && FreeLists(h, bs, lists) && IsBlock(h, bs, b)
    requires b in lists[GetClassNo(Size(h, b))]
    requires CanDelete(h, b) && DeletedHead(h, b, r) && DeletedFrame(h, b, r)
    requires Layout(r, bs) && KeepsHeaders(h, r, bs, b)
    ensures var c := GetClassNo(Size(h, b)); var L := lists[c];
      FreeLists(r, bs, lists[c := RemoveAt(L, IndexOf(L, b))])
  {
    var c := GetClassNo(Size(h, b));
    var L := lists[c];
    var lists' := lists[c := RemoveAt(L, IndexOf(L, b))];
    DeleteKeepsClass(h, bs, lists, b, r);
    DeleteKeepsOtherLists(h, bs, lists, b, r);
    DeleteKeepsEntries(h, bs, lists, b, r);
    forall c' | 0 <= c' < CLASS_NUMBER
      ensures ListAt(r, r.seg[c'], lists'[c']) && NoDup(lists'[c'])
    {
      if c' != c {
        assert lists'[c'] == lists[c'];
      }
    }
  }
  /**
   * `add_to_free_list` followed by `delete_block` of the same block puts
   * the class table and the lists back as they were and leaves the block
   * allocated with its size.
   */
  lemma AddThenDelete(h: Heap, bs: seq<nat>, lists: seq<seq<nat>>, ex: set<nat>, b: nat)
    requires Inv(h, bs, lists, ex) && b in ex
    ensures CanAdd(h, b) && CanDelete(AddToFreeList(h, b), b)
    ensures var r := DeleteBlock(AddToFreeList(h, b), b);
      && Inv(r, bs, lists, ex - {b}) && r.seg == h.seg
      && Size(r, b) == Size(h, b) && !IsFree(r, b) && KeepsHeaders(h, r, bs, b)
  {
    var c := GetClassNo(Size(h, b));
    assert b !in lists[c];
    BlockFacts(h, bs, b);
    HeadFacts(h, bs, lists, c);
    if h.seg[c] != 0 {
      assert h.seg[c] == lists[c][0] && lists[c][0] in lists[c];
    }
    assert h.seg[c] != b;
    AddThenDeleteInv(h, bs, lists, ex, b);
    AddThenDeleteSeg(h, b);
  }

  lemma AddThenDeleteInv(h: Heap, bs: seq<nat>, lists: seq<seq<nat>>, ex: set<nat>, b: nat)
    requires Inv(h, bs, lists, ex) && b in ex
    ensures CanAdd(h, b) && CanDelete(AddToFreeList(h, b), b)
    ensures var r := DeleteBlock(AddToFreeList(h, b), b);
      && Inv(r, bs, lists, ex - {b})
      && Size(r, b) == Size(h, b) && !IsFree(r, b) && KeepsHeaders(h, r, bs, b)
  {
    var c := GetClassNo(Size(h, b));
    var L := lists[c];
    AddToFreeListInv(h, bs, lists, ex, b);
    var h1 := AddToFreeList(h, b);
    var lists1 := lists[c := [b] + L];
    assert b in lists1[GetClassNo(Size(h1, b))];
    BlockFacts(h, bs, b);
    DeleteBlockInv(h1, bs, lists1, ex - {b}, b);
    assert IndexOf([b] + L, b) == 0;
    assert RemoveAt([b] + L, 0) == L;
    UpdateRestore(lists, c, [b] + L);
    KeepsHeadersTrans(h, h1, DeleteBlock(h1, b), bs, b);
  }

  /** The class table after a push and an unlink of the same block is the one before. */
  lemma AddThenDeleteSeg(h: Heap, b: nat)
    requires CanAdd(h, b) && h.seg[GetClassNo(Size(h, b))] != b && CanDelete(AddToFreeList(h, b), b)
    ensures DeleteBlock(AddToFreeList(h, b), b).seg == h.seg
  {
    AddToFreeListHead(h, b);
  }


  // ---------------------------------------------------------------------
  // Changes away from the listed blocks
  // ---------------------------------------------------------------------

  /**
   * A block on no list lies apart from every listed block: the header and
   * both link words of each listed block sit outside it.
   */
  lemma ListedOutside(h: Heap, bs: seq<nat>, lists: seq<seq<nat>>, b: nat)
    requires Layout(h, bs) && FreeLists(h, bs, lists) && IsBlock(h, bs, b)
    requires b !in lists[GetClassNo(Size(h, b))]
    ensures forall c, k :: 0 <= c < CLASS_NUMBER && 0 <= k < |lists[c]| ==>
      && lists[c][k] != b && lists[c][k] in bs && lists[c][k] + 2 < |h.mem|
      && Outside(lists[c][k], b, Size(h, b)) && Outside(lists[c][k] + 1, b, Size(h, b))
      && Outside(lists[c][k] + 2, b, Size(h, b))
  {
    BlockFacts(h, bs, b);
    forall c, k | 0 <= c < CLASS_NUMBER && 0 <= k < |lists[c]|
      ensures lists[c][k] != b && lists[c][k] in bs && lists[c][k] + 2 < |h.mem|
      ensures Outside(lists[c][k], b, Size(h, b)) && Outside(lists[c][k] + 1, b, Size(h, b))
      ensures Outside(lists[c][k] + 2, b, Size(h, b))
    {
      var x := lists[c][k];
      assert x in lists[c];
      assert Entry(h, bs, c, x);
      assert x != b;
      BlockFacts(h, bs, x);
      Separate(h, bs, b, x);
    }
  }

  /**
   * The lists survive any change that keeps the class table and the header
   * and link words of every listed block, into any block sequence that
   * still holds the listed blocks.
   */
  lemma ListsKeep(h: Heap, bs: seq<nat>, lists: seq<seq<nat>>, r: Heap, bs': seq<nat>)
    requires Sized(h) && Sized(r) && FreeLists(h, bs, lists) && r.seg == h.seg && |r.mem| >= |h.mem|
    requires forall c, k :: 0 <= c < CLASS_NUMBER && 0 <= k < |lists[c]| && lists[c][k] + 2 < |h.mem| ==>
      && lists[c][k] in bs'
      && r.mem[lists[c][k]] == h.mem[lists[c][k]] && r.mem[lists[c][k] + 1] == h.mem[lists[c][k] + 1]
      && r.mem[lists[c][k] + 2] == h.mem[lists[c][k] + 2]
    ensures FreeLists(r, bs', lists)
  {
    forall c | 0 <= c < CLASS_NUMBER
      ensures ListAt(r, r.seg[c], lists[c])
    {
      forall k | 0 <= k < |lists[c]|
        ensures r.mem[lists[c][k] + 1] == h.mem[lists[c][k] + 1] && r.mem[lists[c][k] + 2] == h.mem[lists[c][k] + 2]
      {
        ListAtAt(h, h.seg[c], lists[c], k);
      }
      ListAtFrame(h, r, h.seg[c], lists[c]);
    }
    forall c, x | 0 <= c < CLASS_NUMBER && x in lists[c]
      ensures Entry(r, bs', c, x)
    {
      var k := IndexOf(lists[c], x);
      assert Entry(h, bs, c, x);
    }
  }
}
