/**
 * The allocator's heap as an array of 32-bit words (Project/MallocLab/mm.c).
 *
 * Word index i stands for the byte address base + 4i. The first 24 words are
 * the twelve 8-byte class-list heads that `mm_init` takes from `mem_sbrk`;
 * the model keeps their values in `seg` (a block index per class, 0 for
 * NULL). Word 24 is padding, words 25 and 26 the prologue's header and
 * footer, and the first real block starts at word 27. A block is named by the
 * index of its header word; its predecessor and successor links sit in the
 * two words after the header and its footer in the last word.
 */
module MmHeap {
  import opened MmCodec

  const SEG_WORDS: nat := 24
  const PROLOGUE: nat := 25
  const FIRST: nat := 27
  /** `PACK(2, 1)` and `PACK(0, 1)`. */
  const PROLOGUE_TAG: nat := 0x4000_0002
  const EPILOGUE_TAG: nat := 0x4000_0000

  /**
   * The heap words, the class-list heads, and the most words `mem_sbrk` can
   * ever hand out.
   */
  datatype Heap = Heap(mem: seq<Word>, seg: seq<nat>, limit: nat)

  /** Twelve class heads, and a heap whose every word index fits a 30-bit block size. */
  predicate Sized(h: Heap)
  {
    |h.seg| == CLASS_NUMBER && |h.mem| <= h.limit < SIZE_LIMIT
  }

  /** Word p lies outside the `size` words starting at b. */
  predicate Outside(p: nat, b: nat, size: nat)
  {
    p < b || b + size <= p
  }

  /** `put`: store one word. */
  function Put(h: Heap, i: nat, v: Word): (r: Heap)
    requires i < |h.mem|
    ensures |r.mem| == |h.mem| && r.seg == h.seg && r.limit == h.limit && r.mem[i] == v
    ensures forall j {:trigger r.mem[j]} :: 0 <= j < |h.mem| && j != i ==> r.mem[j] == h.mem[j]
  {
    h.(mem := h.mem[i := v])
  }

  /** `block_size`: the size field of the tag, below 2^30 (`TagIsPacked` rebuilds the tag from it). */
  function Size(h: Heap, b: nat): (s: nat)
    requires b < |h.mem|
    ensures s < SIZE_LIMIT
  {
    SizeField(h.mem[b])
  }

  /** `block_free`. */
  predicate IsFree(h: Heap, b: nat)
    requires b < |h.mem|
  {
    FreeField(h.mem[b])
  }

  /** The block's header and every word its size claims lie inside the heap. */
  predicate Spans(h: Heap, b: nat)
  {
    b < |h.mem| && b + Size(h, b) <= |h.mem|
  }

  /** The word `block_mark` copies the header to: the last word, or the header itself for size 0. */
  function Footer(h: Heap, b: nat): (f: nat)
    requires Spans(h, b)
    ensures b <= f < |h.mem|
  {
    if Size(h, b) == 0 then b else b + Size(h, b) - 1
  }

  /** `block_next`. */
  function BlockNext(h: Heap, b: nat): nat
    requires b < |h.mem|
  {
    b + Size(h, b)
  }

  /** `block_prev`: step back by the size the footer before the header records. */
  function BlockPrev(h: Heap, b: nat): nat
    requires 1 <= b < |h.mem| + 1 && Size(h, b - 1) <= b
  {
    b - Size(h, b - 1)
  }

  /**
   * `get_pred_ptr`: the block index the stored link names, 0 for NULL
   * (`LinkReadBack` shows an aligned link is what `set_pred_ptr` stores for it).
   */
  function PredOf(h: Heap, b: nat): (p: nat)
    requires b + 1 < |h.mem|
    ensures p < SIZE_LIMIT && (h.mem[b + 1] == 0 ==> p == 0)
  {
    PtrOf(h.mem[b + 1])
  }

  /** `get_succ_ptr`, with the same reading of the link as `PredOf`. */
  function SuccOf(h: Heap, b: nat): (p: nat)
    requires b + 2 < |h.mem|
    ensures p < SIZE_LIMIT && (h.mem[b + 2] == 0 ==> p == 0)
  {
    PtrOf(h.mem[b + 2])
  }

  /** `set_pred_ptr`, with 0 for a NULL predecessor. */
  function SetPred(h: Heap, b: nat, p: nat): (r: Heap)
    requires b + 1 < |h.mem|
    ensures |r.mem| == |h.mem| && r.seg == h.seg && r.limit == h.limit
    ensures p < SIZE_LIMIT ==> PredOf(r, b) == p
    ensures forall j {:trigger r.mem[j]} :: 0 <= j < |h.mem| && j != b + 1 ==> r.mem[j] == h.mem[j]
  {
    if p < SIZE_LIMIT then PtrLinkRoundTrip(p); Put(h, b + 1, LinkOf(p))
    else Put(h, b + 1, LinkOf(p))
  }

  /** `set_succ_ptr`, with 0 for a NULL successor. */
  function SetSucc(h: Heap, b: nat, s: nat): (r: Heap)
    requires b + 2 < |h.mem|
    ensures |r.mem| == |h.mem| && r.seg == h.seg && r.limit == h.limit
    ensures s < SIZE_LIMIT ==> SuccOf(r, b) == s
    ensures forall j {:trigger r.mem[j]} :: 0 <= j < |h.mem| && j != b + 2 ==> r.mem[j] == h.mem[j]
  {
    if s < SIZE_LIMIT then PtrLinkRoundTrip(s); Put(h, b + 2, LinkOf(s))
    else Put(h, b + 2, LinkOf(s))
  }

  /**
   * `block_mark`: set or clear the allocated bit of the header and copy the
   * header over the footer. Only those two words change, the size is kept,
   * and afterwards the header and footer words are equal.
   */
  function BlockMark(h: Heap, b: nat, free: bool): (r: Heap)
    requires Spans(h, b)
    ensures |r.mem| == |h.mem| && r.seg == h.seg && r.limit == h.limit
    ensures Size(r, b) == Size(h, b) && IsFree(r, b) == free
    ensures r.mem[Footer(h, b)] == r.mem[b]
    ensures free && h.mem[b] < SIZE_LIMIT ==> r.mem[b] == h.mem[b]
    ensures forall j {:trigger r.mem[j]} :: 0 <= j < |h.mem| && j != b && j != Footer(h, b) ==> r.mem[j] == h.mem[j]
  {
    MarkFreeFields(h.mem[b]);
    MarkAllocFields(h.mem[b]);
    var w := if free then MarkFree(h.mem[b]) else MarkAlloc(h.mem[b]);
    h.(mem := h.mem[b := w][Footer(h, b) := w])
  }

  /**
   * `init_block`: write the size into header and footer, clear both links,
   * and mark the block free. Only the header, the two link words and the
   * footer change.
   */
  function InitBlock(h: Heap, b: nat, size: nat): (r: Heap)
    requires 1 <= size < SIZE_LIMIT && b + size <= |h.mem| && b + 2 < |h.mem|
    ensures |r.mem| == |h.mem| && r.seg == h.seg && r.limit == h.limit
    ensures Size(r, b) == size && IsFree(r, b) && r.mem[b] == size
    ensures r.mem[b + size - 1] == r.mem[b]
    ensures size >= 4 ==> PredOf(r, b) == 0 && SuccOf(r, b) == 0
    ensures forall j {:trigger r.mem[j]} :: 0 <= j < |h.mem| && j != b && j != b + 1 && j != b + 2 && j != b + size - 1 ==>
              r.mem[j] == h.mem[j]
  {
    RawSize(size);
    var h1 := Put(h, b, size);
    var h2 := Put(h1, b + Size(h1, b) - 1, size);
    var h3 := SetPred(h2, b, 0);
    var h4 := SetSucc(h3, b, 0);
    assert Size(h4, b) == size;
    BlockMark(h4, b, true)
  }

  /**
   * `combine_block`: give `first` the summed size of both blocks in header
   * and footer. The raw sum has the allocated bit clear, so the merged block
   * reads free.
   */
  function CombineBlock(h: Heap, first: nat, second: nat): (r: Heap)
    requires first < |h.mem| && second < |h.mem|
    requires 1 <= Size(h, first) + Size(h, second) < SIZE_LIMIT
    requires first + Size(h, first) + Size(h, second) <= |h.mem|
    ensures |r.mem| == |h.mem| && r.seg == h.seg && r.limit == h.limit
    ensures Size(r, first) == Size(h, first) + Size(h, second) && IsFree(r, first)
    ensures r.mem[first + Size(r, first) - 1] == r.mem[first]
    ensures forall j {:trigger r.mem[j]} :: 0 <= j < |h.mem| && j != first && j != first + Size(r, first) - 1 ==>
              r.mem[j] == h.mem[j]
  {
    var s := Size(h, first) + Size(h, second);
    RawSize(s);
    var h1 := Put(h, first, s);
    Put(h1, first + Size(h1, first) - 1, s)
  }

  // ---------------------------------------------------------------------
  // Physical layout
  // ---------------------------------------------------------------------

  /** A block as `mm_checkheap` expects it: even size of at least 4 words, header equal to footer. */
  predicate BlockOk(h: Heap, b: nat)
  {
    b < |h.mem| && Size(h, b) >= BLOCKSIZE_MIN && Size(h, b) % 2 == 0
    && b + Size(h, b) <= |h.mem| && h.mem[b + Size(h, b) - 1] == h.mem[b]
  }

  /**
   * The physical block sequence: `bs` lists every block header from word 27
   * in address order, each block ending where the next begins, the last
   * entry being the epilogue in the final heap word. The prologue's header
   * and footer are intact, and the heap never outgrows the class-table,
   * padding and prologue area it started with nor its limit.
   */
  predicate Layout(h: Heap, bs: seq<nat>)
  {
    && Sized(h) && FIRST < |h.mem|
    && h.mem[PROLOGUE] == PROLOGUE_TAG && h.mem[PROLOGUE + 1] == PROLOGUE_TAG
    && |bs| >= 1 && bs[0] == FIRST && bs[|bs| - 1] == |h.mem| - 1
    && h.mem[|h.mem| - 1] == EPILOGUE_TAG
    && (forall i :: 0 <= i < |bs| - 1 ==> BlockOk(h, bs[i]))
    && (forall i, j :: 0 <= i < |bs| - 1 && j == i + 1 ==> bs[j] == bs[i] + Size(h, bs[i]))
  }

  /** Blocks are in strictly increasing address order, each ending no later than any later one starts. */
  lemma {:induction false} LayoutOrdered(h: Heap, bs: seq<nat>, i: nat, j: nat)
    requires Layout(h, bs) && i < j < |bs|
    ensures bs[i] + Size(h, bs[i]) <= bs[j] && bs[i] < bs[j]
  {
    if j > i + 1 {
      LayoutOrdered(h, bs, i, j - 1);
    }
  }

  /** Distinct blocks occupy disjoint word ranges. */
  lemma Disjoint(h: Heap, bs: seq<nat>, i: nat, j: nat)
    requires Layout(h, bs) && i < |bs| - 1 && j < |bs| - 1 && i != j
    ensures bs[i] + Size(h, bs[i]) <= bs[j] || bs[j] + Size(h, bs[j]) <= bs[i]
  {
    if i < j {
      LayoutOrdered(h, bs, i, j);
    } else {
      LayoutOrdered(h, bs, j, i);
    }
  }

  /** Every block entry lies between the prologue and the end of the heap. */
  lemma LayoutBounds(h: Heap, bs: seq<nat>, i: nat)
    requires Layout(h, bs) && i < |bs|
    ensures FIRST <= bs[i] < |h.mem|
    ensures i < |bs| - 1 ==> bs[i] + Size(h, bs[i]) <= |h.mem| - 1
  {
    if i > 0 {
      LayoutOrdered(h, bs, 0, i);
    }
    if i < |bs| - 1 {
      LayoutOrdered(h, bs, i, |bs| - 1);
    }
  }

  /** Every block header other than b's reads the same in r as in h. */
  predicate KeepsHeaders(h: Heap, r: Heap, bs: seq<nat>, b: nat)
  {
    forall i :: 0 <= i < |bs| && bs[i] != b && bs[i] < |h.mem| && bs[i] < |r.mem| ==> r.mem[bs[i]] == h.mem[bs[i]]
  }

  lemma KeepsHeadersTrans(h: Heap, g: Heap, r: Heap, bs: seq<nat>, b: nat)
    requires KeepsHeaders(h, g, bs, b) && KeepsHeaders(g, r, bs, b) && |g.mem| == |h.mem|
    ensures KeepsHeaders(h, r, bs, b)
  {
  }

  /** x is a real block: an entry of the block sequence other than the epilogue in the last word. */
  predicate IsBlock(h: Heap, bs: seq<nat>, x: nat)
  {
    x in bs && x + 1 < |h.mem|
  }

  lemma BlockIndex(h: Heap, bs: seq<nat>, x: nat) returns (i: nat)
    requires Layout(h, bs) && IsBlock(h, bs, x)
    ensures i < |bs| - 1 && bs[i] == x
  {
    var k :| 0 <= k < |bs| && bs[k] == x;
    i := k;
  }

  /** A real block is well formed and lies strictly between the prologue and the epilogue. */
  lemma BlockFacts(h: Heap, bs: seq<nat>, x: nat)
    requires Layout(h, bs) && IsBlock(h, bs, x)
    ensures BlockOk(h, x) && FIRST <= x && x + Size(h, x) <= |h.mem| - 1
  {
    var i := BlockIndex(h, bs, x);
    LayoutBounds(h, bs, i);
  }

  // ---------------------------------------------------------------------
  // Alignment
  // ---------------------------------------------------------------------

  /**
   * `aligned`: word p sits on a double-word boundary. The base the byte
   * offsets count from is itself double-word aligned.
   */
  predicate DoubleAligned(p: nat)
  {
    (WSIZE * p) % DSIZE == 0
  }

  /** Every entry of the block sequence is an odd word: the first is 27 and every block size is even. */
  lemma {:induction false} OddBlocks(h: Heap, bs: seq<nat>, i: nat)
    requires Layout(h, bs) && i < |bs|
    ensures bs[i] % 2 == 1
  {
    if i > 0 {
      OddBlocks(h, bs, i - 1);
      assert BlockOk(h, bs[i - 1]);
      assert bs[i] == bs[i - 1] + Size(h, bs[i - 1]);
    }
  }

  /**
   * The payload of every block, the word after its header, is double-word
   * aligned, and the header itself is not: it sits one word before.
   */
  lemma PayloadAligned(h: Heap, bs: seq<nat>, x: nat)
    requires Layout(h, bs) && x in bs
    ensures DoubleAligned(x + 1) && (WSIZE * x) % DSIZE == WSIZE
  {
    var i :| 0 <= i < |bs| && bs[i] == x;
    OddBlocks(h, bs, i);
  }

  /** Two different real blocks do not overlap. */
  lemma Separate(h: Heap, bs: seq<nat>, x: nat, y: nat)
    requires Layout(h, bs) && IsBlock(h, bs, x) && IsBlock(h, bs, y) && x != y
    ensures x + Size(h, x) <= y || y + Size(h, y) <= x
  {
    var i := BlockIndex(h, bs, x);
    var j := BlockIndex(h, bs, y);
    Disjoint(h, bs, i, j);
  }

  /** The header and footer of any other entry lie outside block x. */
  lemma TagsOutside(h: Heap, bs: seq<nat>, x: nat, i: nat)
    requires Layout(h, bs) && IsBlock(h, bs, x) && i < |bs| && bs[i] != x
    ensures Outside(bs[i], x, Size(h, x))
    ensures i < |bs| - 1 ==> Size(h, bs[i]) >= 1 && Outside(bs[i] + Size(h, bs[i]) - 1, x, Size(h, x))
  {
    var k := BlockIndex(h, bs, x);
    if i < |bs| - 1 {
      Disjoint(h, bs, i, k);
    } else {
      LayoutBounds(h, bs, k);
    }
  }

  /**
   * The layout survives any change that keeps the prologue, the epilogue
   * and the header and footer of every entry but b, and leaves b with its
   * size and matching tags.
   */
  lemma LayoutKeep(h: Heap, r: Heap, bs: seq<nat>, b: nat)
    requires Layout(h, bs) && IsBlock(h, bs, b) && Sized(r) && |r.mem| == |h.mem|
    requires r.mem[PROLOGUE] == h.mem[PROLOGUE] && r.mem[PROLOGUE + 1] == h.mem[PROLOGUE + 1]
    requires r.mem[|h.mem| - 1] == h.mem[|h.mem| - 1]
    requires forall i :: 0 <= i < |bs| - 1 && bs[i] != b ==>
               r.mem[bs[i]] == h.mem[bs[i]] && r.mem[bs[i] + Size(h, bs[i]) - 1] == h.mem[bs[i] + Size(h, bs[i]) - 1]
    requires Size(r, b) == Size(h, b) && r.mem[b + Size(h, b) - 1] == r.mem[b]
    ensures Layout(r, bs)
  {
    BlockFacts(h, bs, b);
    forall i | 0 <= i < |bs| - 1
      ensures BlockOk(r, bs[i]) && Size(r, bs[i]) == Size(h, bs[i])
    {
      assert BlockOk(h, bs[i]);
    }
    forall i, j | 0 <= i < |bs| - 1 && j == i + 1
      ensures bs[j] == bs[i] + Size(r, bs[i])
    {
      assert bs[j] == bs[i] + Size(h, bs[i]);
    }
  }

  /**
   * When only the words of block b change, every other block keeps its
   * header, its size and its footer, and the prologue and epilogue stay.
   */
  lemma OthersKept(h: Heap, r: Heap, bs: seq<nat>, b: nat)
    requires Layout(h, bs) && IsBlock(h, bs, b) && |r.mem| == |h.mem|
    requires forall j :: 0 <= j < |h.mem| && Outside(j, b, Size(h, b)) ==> r.mem[j] == h.mem[j]
    ensures r.mem[PROLOGUE] == h.mem[PROLOGUE] && r.mem[PROLOGUE + 1] == h.mem[PROLOGUE + 1]
    ensures r.mem[|h.mem| - 1] == h.mem[|h.mem| - 1]
    ensures forall i :: 0 <= i < |bs| && bs[i] != b ==> r.mem[bs[i]] == h.mem[bs[i]]
    ensures forall i :: 0 <= i < |bs| - 1 && bs[i] != b ==> BlockOk(r, bs[i]) && Size(r, bs[i]) == Size(h, bs[i])
  {
    BlockFacts(h, bs, b);
    forall i | 0 <= i < |bs| && bs[i] != b
      ensures r.mem[bs[i]] == h.mem[bs[i]]
      ensures i < |bs| - 1 ==> BlockOk(r, bs[i]) && Size(r, bs[i]) == Size(h, bs[i])
    {
      TagsOutside(h, bs, b, i);
      LayoutBounds(h, bs, i);
      if i < |bs| - 1 {
        assert BlockOk(h, bs[i]);
      }
    }
  }

  /** No block starts strictly inside another. */
  lemma InsideNotBlock(h: Heap, bs: seq<nat>, b: nat, x: nat)
    requires Layout(h, bs) && IsBlock(h, bs, b) && b < x < b + Size(h, b)
    ensures x !in bs
  {
    if x in bs {
      var i := BlockIndex(h, bs, b);
      var k :| 0 <= k < |bs| && bs[k] == x;
      if k < i {
        LayoutOrdered(h, bs, k, i);
      } else if k > i {
        LayoutOrdered(h, bs, i, k);
      }
    }
  }

  /**
   * A change confined to the words of block b that leaves b its size and
   * matching tags keeps the layout and every other block's header.
   */
  lemma LayoutFrame(h: Heap, r: Heap, bs: seq<nat>, b: nat)
    requires Layout(h, bs) && IsBlock(h, bs, b) && BlockOk(h, b) && Sized(r) && |r.mem| == |h.mem|
    requires forall j :: 0 <= j < |h.mem| && Outside(j, b, Size(h, b)) ==> r.mem[j] == h.mem[j]
    requires Size(r, b) == Size(h, b) && r.mem[b + Size(h, b) - 1] == r.mem[b]
    ensures Layout(r, bs) && KeepsHeaders(h, r, bs, b)
  {
    OthersKept(h, r, bs, b);
    forall i | 0 <= i < |bs| - 1 && bs[i] != b
      ensures r.mem[bs[i] + Size(h, bs[i]) - 1] == h.mem[bs[i] + Size(h, bs[i]) - 1]
    {
      assert BlockOk(h, bs[i]);
      assert BlockOk(r, bs[i]);
    }
    LayoutKeep(h, r, bs, b);
  }

  /** A block occurs once in the block sequence. */
  lemma OnlyAt(h: Heap, bs: seq<nat>, i: nat)
    requires Layout(h, bs) && i < |bs|
    ensures forall k :: 0 <= k < |bs| && k != i ==> bs[k] != bs[i]
  {
    forall k | 0 <= k < |bs| && k != i
      ensures bs[k] != bs[i]
    {
      if k < i {
        LayoutOrdered(h, bs, k, i);
      } else {
        LayoutOrdered(h, bs, i, k);
      }
    }
  }

  /** Headers kept over a larger block sequence are kept over a smaller one. */
  lemma KeepsHeadersSub(h: Heap, r: Heap, bs: seq<nat>, bs1: seq<nat>, x: nat, b: nat)
    requires KeepsHeaders(h, r, bs1, x) && x !in bs && forall y :: y in bs ==> y in bs1
    ensures KeepsHeaders(h, r, bs, b)
  {
    forall i | 0 <= i < |bs| && bs[i] != b && bs[i] < |h.mem| && bs[i] < |r.mem|
      ensures r.mem[bs[i]] == h.mem[bs[i]]
    {
      assert bs[i] in bs1;
      var j :| 0 <= j < |bs1| && bs1[j] == bs[i];
    }
  }

  /**
   * Two changes, each keeping every header but one, keep every header of a
   * later block sequence except z, when its other entries were in both
   * earlier sequences and were not the two changed blocks.
   */
  lemma KeepsHeadersVia(h: Heap, g: Heap, r: Heap, bsA: seq<nat>, bsB: seq<nat>, bs': seq<nat>, y: nat, b: nat, z: nat)
    requires KeepsHeaders(h, g, bsA, y) && KeepsHeaders(g, r, bsB, b) && |g.mem| == |h.mem| && |r.mem| == |h.mem|
    requires forall x :: x in bs' && x != z ==> x in bsA && x in bsB && x != y && x != b
    ensures KeepsHeaders(h, r, bs', z)
  {
    forall i | 0 <= i < |bs'| && bs'[i] != z && bs'[i] < |h.mem| && bs'[i] < |r.mem|
      ensures r.mem[bs'[i]] == h.mem[bs'[i]]
    {
      var x := bs'[i];
      assert x in bs';
      var j :| 0 <= j < |bsA| && bsA[j] == x;
      var k :| 0 <= k < |bsB| && bsB[k] == x;
    }
  }
}
