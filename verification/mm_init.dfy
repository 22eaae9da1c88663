/**
 * `mm_init` of Project/MallocLab/mm.c: take the class table and the
 * padding, prologue and epilogue words from `mem_sbrk`, grow the heap by a
 * chunk, and list the chunk as the one free block.
 */
module MmInit {
  import opened MmCodec
  import opened MmHeap
  import opened MmLists
  import opened MmExtend
  import opened MmSteps
  import opened MmAdjacent
  import opened Seqs
  import opened Outcomes

  /** Twelve empty class lists. */
  function EmptyLists(): (lists: seq<seq<nat>>)
    ensures |lists| == CLASS_NUMBER && forall c :: 0 <= c < CLASS_NUMBER ==> lists[c] == []
  {
    seq(CLASS_NUMBER, _ => [])
  }

  /** The heap words right after `mm_init` succeeds: one free block of a chunk, then the epilogue. */
  const INIT_WORDS: nat := FIRST + CHUNKSIZE + 1

  /**
   * A heap of the initial shape is coherent with the chunk in transit:
   * prologue and epilogue in place, one well-formed free block of a chunk
   * starting at the first block word, and every class list empty.
   */
  lemma InitialInv(h: Heap)
    requires Sized(h) && |h.mem| == INIT_WORDS && h.seg == seq(CLASS_NUMBER, _ => 0)
    requires h.mem[PROLOGUE] == PROLOGUE_TAG && h.mem[PROLOGUE + 1] == PROLOGUE_TAG
    requires h.mem[INIT_WORDS - 1] == EPILOGUE_TAG
    requires Size(h, FIRST) == CHUNKSIZE && IsFree(h, FIRST) && h.mem[FIRST + CHUNKSIZE - 1] == h.mem[FIRST]
    ensures Inv(h, [FIRST, FIRST + CHUNKSIZE], EmptyLists(), {FIRST})
  {
    var bs := [FIRST, FIRST + CHUNKSIZE];
    assert BlockOk(h, bs[0]);
    assert Layout(h, bs);
    forall c | 0 <= c < CLASS_NUMBER
      ensures ListAt(h, h.seg[c], EmptyLists()[c]) && NoDup(EmptyLists()[c])
    {
      assert h.seg[c] == 0;
    }
  }

  /**
   * `mm_init`: the class table takes the first 24 words, padding, prologue
   * header and footer and a zero epilogue the next 4, then
   * `extend_heap(CHUNKSIZE)` turns the epilogue into a free chunk that is
   * re-initialised and pushed on its class list. The first `mem_sbrk` is
   * not checked, so a limit below the class table is a `Fault` (the NULL
   * stores go through `(void *)-1`). Otherwise it answers -1 exactly when
   * the heap limit cannot hold the initial words; on success the heap is
   * coherent, holds one free block of a chunk and nothing else, and that
   * block is the only entry of the lists.
   */
  method Init(limit: nat) returns (r: Heap, ret: Outcome<int>, ghost bs: seq<nat>, ghost lists: seq<seq<nat>>)
    requires limit < SIZE_LIMIT
    ensures ret.Fault? <==> limit < SEG_WORDS
    ensures ret.Done? ==> ret.value == 0 || ret.value == -1
    ensures ret == Done(0) <==> INIT_WORDS <= limit
    ensures ret == Done(0) ==>
      && Wf(r, bs, lists) && r.limit == limit && |r.mem| == INIT_WORDS
      && bs == [FIRST, FIRST + CHUNKSIZE] && IsFree(r, FIRST) && Size(r, FIRST) == CHUNKSIZE
      && lists == EmptyLists()[GetClassNo(CHUNKSIZE) := [FIRST]]
      && NoAdjacentFree(r, bs)
  {
    var h, ok := Prologue(limit);
    if ok.Fault? {
      return h, Fault, [], [];
    }
    if !ok.value || !CanGrow(h, EvenUp(CHUNKSIZE)) {
      return h, Done(-1), [], [];
    }
    r, bs, lists := FirstChunk(h);
    ret := Done(0);
  }

  /**
   * The first two `mem_sbrk` calls of `mm_init`: 24 zero words for the
   * class table, then padding, prologue header and footer, and a zero
   * epilogue. A failed first call is not checked and faults at the first
   * store into the table; a failed second call answers false.
   */
  method Prologue(limit: nat) returns (h: Heap, ok: Outcome<bool>)
    requires limit < SIZE_LIMIT
    ensures ok.Fault? <==> limit < SEG_WORDS
    ensures ok == Done(true) <==> SEG_WORDS + 4 <= limit
    ensures ok == Done(true) ==>
      && Sized(h) && |h.mem| == FIRST + 1 && h.seg == seq(CLASS_NUMBER, _ => 0) && h.limit == limit
      && h.mem[PROLOGUE] == PROLOGUE_TAG && h.mem[PROLOGUE + 1] == PROLOGUE_TAG
    ensures h.limit == limit
  {
    h := Heap([], seq(CLASS_NUMBER, _ => 0), limit);
    if !CanGrow(h, SEG_WORDS) {
      return h, Fault;
    }
    h := Sbrk(h, SEG_WORDS);
    if !CanGrow(h, 4) {
      return h, Done(false);
    }
    h := Sbrk(h, 4);
    PackRoundTrip(2, 0);
    PackRoundTrip(2, 1);
    PackRoundTrip(0, 0);
    h := Put(h, SEG_WORDS, Pack(2, 0));
    h := Put(h, PROLOGUE, Pack(2, 1));
    h := Put(h, PROLOGUE + 1, Pack(2, 1));
    h := Put(h, FIRST, Pack(0, 0));
    ok := Done(true);
  }

  /** The rest of `mm_init`: `extend_heap(CHUNKSIZE)`, `init_block` on the new block, `add_to_free_list`. */
  method FirstChunk(h: Heap) returns (r: Heap, ghost bs: seq<nat>, ghost lists: seq<seq<nat>>)
    requires Sized(h) && |h.mem| == FIRST + 1 && h.seg == seq(CLASS_NUMBER, _ => 0)
    requires h.mem[PROLOGUE] == PROLOGUE_TAG && h.mem[PROLOGUE + 1] == PROLOGUE_TAG
    requires CanGrow(h, EvenUp(CHUNKSIZE))
    ensures Wf(r, bs, lists) && r.limit == h.limit && |r.mem| == INIT_WORDS
    ensures bs == [FIRST, FIRST + CHUNKSIZE] && IsFree(r, FIRST) && Size(r, FIRST) == CHUNKSIZE
    ensures lists == EmptyLists()[GetClassNo(CHUNKSIZE) := [FIRST]]
    ensures NoAdjacentFree(r, bs)
  {
    var h1 := ExtendHeap(h, CHUNKSIZE);
    ExtendHeapEffect(h, CHUNKSIZE);
    var h2 := InitBlock(h1, FIRST, Size(h1, FIRST));
    assert h2.mem[PROLOGUE] == h1.mem[PROLOGUE] && h2.mem[PROLOGUE + 1] == h1.mem[PROLOGUE + 1];
    assert h2.mem[INIT_WORDS - 1] == h1.mem[INIT_WORDS - 1];
    InitialInv(h2);
    bs := [FIRST, FIRST + CHUNKSIZE];
    assert Size(h2, FIRST) == CHUNKSIZE;
    r, lists := Push(h2, FIRST, bs, EmptyLists(), {FIRST});
    assert {FIRST} - {FIRST} == {};
    assert [FIRST] + EmptyLists()[GetClassNo(CHUNKSIZE)] == [FIRST];
    OnlyBlockCoalesced(r, bs);
  }

  /** The one free block of the initial heap is followed by the epilogue, which reads allocated. */
  lemma OnlyBlockCoalesced(h: Heap, bs: seq<nat>)
    requires Layout(h, bs) && bs == [FIRST, FIRST + CHUNKSIZE] && Size(h, FIRST) == CHUNKSIZE
    ensures NoAdjacentFree(h, bs)
  {
    forall x: nat | IsBlock(h, bs, x)
      ensures Coalesced(h, x)
    {
      assert x == FIRST;
      assert h.mem[FIRST + CHUNKSIZE] == EPILOGUE_TAG;
    }
  }
}
