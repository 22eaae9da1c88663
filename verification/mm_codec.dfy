/**
 * The allocator's on-heap encodings (Project/MallocLab/mm.c): the boundary
 * tag word that packs a block's size in words with its allocated flag, the
 * 32-bit offset encoding of free-list links, the twelve power-of-two size
 * classes, and the conversion of a request in bytes to a block size in words.
 */
module MmCodec {
  import opened Bits

  const WSIZE: nat := 4
  const DSIZE: nat := 8
  /** Words requested from the heap when no free block fits. */
  const CHUNKSIZE: nat := 64
  /** Smallest block: header, predecessor link, successor link, footer. */
  const BLOCKSIZE_MIN: nat := 4
  const CLASS_NUMBER: nat := 12
  const INT_MAX: nat := 0x7fff_ffff

  /** Tags keep the size in bits 0..29 and the allocated flag in bit 30. */
  const SIZE_LIMIT: nat := 0x4000_0000
  const WORD_LIMIT: nat := 0x1_0000_0000
  /** `size_t` arithmetic is modulo 2^64. */
  const SIZE_T_LIMIT: nat := 0x1_0000_0000_0000_0000

  /** An unsigned 32-bit heap word. */
  type Word = x: nat | x < WORD_LIMIT

  /** Conversion of an unsigned value to a 32-bit word, as an assignment to a `uint32_t` does. */
  function ToWord(x: nat): Word
  {
    x % WORD_LIMIT
  }

  // ---------------------------------------------------------------------
  // Boundary tags
  // ---------------------------------------------------------------------

  /** `PACK(size, alloc)`: `size | (alloc << 30)`. */
  function Pack(size: nat, alloc: nat): (r: nat)
    ensures size < SIZE_LIMIT && alloc <= 1 ==> r == size + alloc * SIZE_LIMIT
  {
    Pow2Constants();
    ShlMul(alloc, 30);
    if size < SIZE_LIMIT then OrDisjoint(size, alloc, 30); Or(size, Shl(alloc, 30))
    else Or(size, Shl(alloc, 30))
  }

  /**
   * `block_size`: the size field, bits 0..29 of the tag. The source masks
   * with `0x3FFFFFFF`; `SizeFieldIsMask` shows the two agree.
   */
  function SizeField(w: nat): nat
  {
    w % SIZE_LIMIT
  }

  /** `block_free`: bit 30 of the tag is clear. */
  predicate FreeField(w: nat)
  {
    (w / SIZE_LIMIT) % 2 == 0
  }

  /** Clearing bit 30, as `block_mark(block, 1)` does to the header. */
  function MarkFree(w: Word): Word
  {
    if (w / SIZE_LIMIT) % 2 == 1 then w - SIZE_LIMIT else w
  }

  /** Setting bit 30, as `block_mark(block, 0)` does to the header. */
  function MarkAlloc(w: Word): Word
  {
    SetBitFits(w);
    if (w / SIZE_LIMIT) % 2 == 1 then w else w + SIZE_LIMIT
  }

  /** `block[0] & 0x3FFFFFFF` is the size field. */
  lemma SizeFieldIsMask(w: nat)
    ensures And(w, 0x3FFF_FFFF) == SizeField(w)
  {
    Pow2Constants();
    AndLowMask(w, 30);
    ShrLowDivMod(w, 30);
  }

  /** `!(block[0] & 0x40000000)` is the free test. */
  lemma FreeFieldIsMask(w: nat)
    ensures (And(w, 0x4000_0000) == 0) == FreeField(w)
  {
    Pow2Constants();
    AndSingleBit(w, 30);
    ShrLowDivMod(w, 30);
  }

  /** `block[0] & 0xBFFFFFFF` on a 32-bit tag is `MarkFree`. */
  lemma MarkFreeIsMask(w: Word)
    ensures And(w, 0xBFFF_FFFF) == MarkFree(w)
  {
    Pow2Constants();
    AndClearBit(w, 30, 32);
    ShrLowDivMod(w, 30);
  }

  /** `block[0] | 0x40000000` on a 32-bit tag is `MarkAlloc`. */
  lemma MarkAllocIsMask(w: Word)
    ensures Or(w, 0x4000_0000) == MarkAlloc(w)
  {
    Pow2Constants();
    OrSetBit(w, 30);
    ShrLowDivMod(w, 30);
  }

  /** Setting a clear bit 30 of a 32-bit word stays within 32 bits. */
  lemma SetBitFits(w: Word)
    ensures (w / SIZE_LIMIT) % 2 == 0 ==> w + SIZE_LIMIT < WORD_LIMIT
  {
    var q := w / SIZE_LIMIT;
    assert w == q * SIZE_LIMIT + w % SIZE_LIMIT;
    assert q < 4;
    if q == 0 || q == 2 {
      assert w < (q + 1) * SIZE_LIMIT;
    }
  }

  /** A raw size below 2^30 written as a tag reads back as that size, free. */
  lemma RawSize(size: nat)
    requires size < SIZE_LIMIT
    ensures SizeField(size) == size && FreeField(size)
  {
  }

  /** A tag as the allocator writes it: a size below 2^30 and bit 31 clear. */
  predicate IsTag(w: nat)
  {
    w < 2 * SIZE_LIMIT
  }

  /** Packing and unpacking a tag are inverse: the size and the flag come back. */
  lemma PackRoundTrip(size: nat, alloc: nat)
    requires size < SIZE_LIMIT && alloc <= 1
    ensures SizeField(Pack(size, alloc)) == size
    ensures FreeField(Pack(size, alloc)) == (alloc == 0)
    ensures IsTag(Pack(size, alloc))
  {
    var w := Pack(size, alloc);
    DivModUnique(w, SIZE_LIMIT, alloc, size);
  }

  /** A well-formed tag is the packing of its own fields. */
  lemma TagIsPacked(w: nat)
    requires IsTag(w)
    ensures w == Pack(SizeField(w), if FreeField(w) then 0 else 1)
  {
    var a := w / SIZE_LIMIT;
    assert a <= 1;
    assert w == a * SIZE_LIMIT + w % SIZE_LIMIT;
  }

  /** Clearing then reading the flag: the size survives, the block reads free. */
  lemma MarkFreeFields(w: Word)
    ensures SizeField(MarkFree(w)) == SizeField(w) && FreeField(MarkFree(w))
    ensures IsTag(w) ==> IsTag(MarkFree(w))
  {
    if (w / SIZE_LIMIT) % 2 == 1 {
      var q := w / SIZE_LIMIT;
      assert w == q * SIZE_LIMIT + w % SIZE_LIMIT;
      assert w - SIZE_LIMIT == (q - 1) * SIZE_LIMIT + w % SIZE_LIMIT;
      DivModUnique(w - SIZE_LIMIT, SIZE_LIMIT, q - 1, w % SIZE_LIMIT);
    }
  }

  /** Setting then reading the flag: the size survives, the block reads allocated. */
  lemma MarkAllocFields(w: Word)
    ensures SizeField(MarkAlloc(w)) == SizeField(w) && !FreeField(MarkAlloc(w))
    ensures IsTag(w) ==> IsTag(MarkAlloc(w))
  {
    if (w / SIZE_LIMIT) % 2 == 0 {
      var q := w / SIZE_LIMIT;
      assert w == q * SIZE_LIMIT + w % SIZE_LIMIT;
      assert w + SIZE_LIMIT == (q + 1) * SIZE_LIMIT + w % SIZE_LIMIT;
      DivModUnique(w + SIZE_LIMIT, SIZE_LIMIT, q + 1, w % SIZE_LIMIT);
    }
  }

  // ---------------------------------------------------------------------
  // Free-list links: 32-bit offsets from the heap base, 0 meaning none
  // ---------------------------------------------------------------------

  /** A full address: NULL, or the heap base plus a byte offset. */
  datatype Addr = Null | At(off: nat)

  /** `CONVERT_32_TO_64`: 0 is NULL, anything else is base + value. */
  function Convert32To64(v: Word): (a: Addr)
    ensures a.Null? <==> v == 0
  {
    if v == 0 then Null else At(v)
  }

  /** `CONVERT_64_TO_32`: NULL is 0, an address is its offset from the base, truncated to 32 bits. */
  function Convert64To32(a: Addr): (v: Word)
    ensures a.Null? ==> v == 0
  {
    match a
    case Null => 0
    case At(off) => ToWord(off)
  }

  /** A nonzero link value survives a trip through the full address. */
  lemma LinkRoundTrip32(v: Word)
    ensures Convert64To32(Convert32To64(v)) == v
  {
  }

  /** An address whose offset is nonzero and fits 32 bits survives a trip through the link. */
  lemma LinkRoundTrip64(a: Addr)
    requires a.At? ==> 0 < a.off < WORD_LIMIT
    ensures Convert32To64(Convert64To32(a)) == a
  {
  }

  /** The heap base itself cannot be linked: its offset 0 reads back as NULL. */
  lemma BaseReadsAsNull()
    ensures Convert32To64(Convert64To32(At(0))) == Null
  {
  }

  /** Word index p of the heap is the address base + 4p; index 0 stands for NULL. */
  function AddrOfIndex(p: nat): Addr
  {
    if p == 0 then Null else At(WSIZE * p)
  }

  /** `set_pred_ptr`/`set_succ_ptr`: the link value stored for the block at index p. */
  function LinkOf(p: nat): Word
  {
    Convert64To32(AddrOfIndex(p))
  }

  /** `get_pred_ptr`/`get_succ_ptr`: the block index a stored link refers to, 0 for NULL. */
  function PtrOf(v: Word): nat
  {
    match Convert32To64(v)
    case Null => 0
    case At(off) => off / WSIZE
  }

  /** Every block index of a heap below 2^30 words is recovered from its link. */
  lemma PtrLinkRoundTrip(p: nat)
    requires p < SIZE_LIMIT
    ensures PtrOf(LinkOf(p)) == p
    ensures LinkOf(p) == 0 <==> p == 0
  {
  }

  /** A word-aligned link read back as a block index and stored again is the same word. */
  lemma LinkReadBack(v: Word)
    requires v % WSIZE == 0
    ensures PtrOf(v) < SIZE_LIMIT && LinkOf(PtrOf(v)) == v
  {
  }

  // ---------------------------------------------------------------------
  // Size classes
  // ---------------------------------------------------------------------

  /** `get_class_no`: the power-of-two class of a block size in words. */
  function GetClassNo(size: nat): (c: nat)
    ensures c < CLASS_NUMBER
  {
    if size < 4 then 0
    else if size < 8 then 1
    else if size < 16 then 2
    else if size < 32 then 3
    else if size < 64 then 4
    else if size < 128 then 5
    else if size < 256 then 6
    else if size < 512 then 7
    else if size < 1024 then 8
    else if size < 2048 then 9
    else if size < 4096 then 10
    else 11
  }

  /**
   * `inverse_get_class_no`: the exclusive upper bound of a class. One below
   * it is still in the class, and below the last class the bound itself
   * opens the next one.
   */
  function InverseGetClassNo(c: int): (bound: nat)
    ensures bound >= 4
    ensures 0 <= c < CLASS_NUMBER ==> GetClassNo(bound - 1) == c
    ensures 0 <= c < CLASS_NUMBER - 1 ==> GetClassNo(bound) == c + 1
  {
    if c == 0 then 4
    else if c == 1 then 8
    else if c == 2 then 16
    else if c == 3 then 32
    else if c == 4 then 64
    else if c == 5 then 128
    else if c == 6 then 256
    else if c == 7 then 512
    else if c == 8 then 1024
    else if c == 9 then 2048
    else if c == 10 then 4096
    else INT_MAX
  }

  /** Larger blocks never land in a smaller class. */
  lemma ClassMonotone(a: nat, b: nat)
    requires a <= b
    ensures GetClassNo(a) <= GetClassNo(b)
  {
  }

  /**
   * The class of a size is exactly the class whose bounds bracket it: the
   * size is below the class bound and, above class 0, not below the bound of
   * the class before. So each class holds the sizes `check_seg_list` allows.
   */
  lemma ClassBracket(size: nat, c: nat)
    requires size < INT_MAX && c < CLASS_NUMBER
    ensures GetClassNo(size) == c <==>
              size < InverseGetClassNo(c) && (c == 0 || InverseGetClassNo(c - 1) <= size)
  {
  }

  /** Class bounds increase with the class number. */
  lemma InverseMonotone(a: nat, b: nat)
    requires a <= b < CLASS_NUMBER
    ensures InverseGetClassNo(a) <= InverseGetClassNo(b)
  {
  }

  // ---------------------------------------------------------------------
  // Request size
  // ---------------------------------------------------------------------

  /**
   * The block size in words that `malloc` and `realloc` compute for a request
   * of `size` bytes: payload plus header and footer rounded up to a double
   * word, and never below the 16-byte minimum block.
   */
  function AdjustedWords(size: nat): nat
  {
    var bytes := if size > BLOCKSIZE_MIN * WSIZE - DSIZE
                 then DSIZE * ((size + DSIZE + (DSIZE - 1)) / DSIZE)
                 else BLOCKSIZE_MIN * WSIZE;
    bytes / WSIZE
  }

  /**
   * The adjusted size is the least even word count, at least the minimum
   * block, whose bytes hold the request plus the two tag words.
   */
  lemma AdjustedWordsBounds(size: nat, w: nat)
    ensures var n := AdjustedWords(size);
      && n % 2 == 0 && n >= BLOCKSIZE_MIN
      && WSIZE * n >= size + DSIZE
      && (w % 2 == 0 && w >= BLOCKSIZE_MIN && WSIZE * w >= size + DSIZE ==> n <= w)
  {
  }

  /**
   * The word count `malloc` computes in 64-bit `size_t` arithmetic: for a
   * request within 15 bytes of `SIZE_MAX` the sum `size + 15` wraps.
   */
  function AdjustedWordsAsWritten(size: nat): (n: nat)
    requires size < SIZE_T_LIMIT
    ensures n % 2 == 0
    ensures size + DSIZE + (DSIZE - 1) >= SIZE_T_LIMIT ==> n < BLOCKSIZE_MIN
  {
    var bytes := if size > BLOCKSIZE_MIN * WSIZE - DSIZE
                 then DSIZE * (((size + DSIZE + (DSIZE - 1)) % SIZE_T_LIMIT) / DSIZE)
                 else BLOCKSIZE_MIN * WSIZE;
    bytes / WSIZE
  }

  /** Below the wrap the two computations agree. */
  lemma AdjustedWordsAgree(size: nat)
    requires size + DSIZE + (DSIZE - 1) < SIZE_T_LIMIT
    ensures AdjustedWordsAsWritten(size) == AdjustedWords(size)
  {
    assert (size + DSIZE + (DSIZE - 1)) % SIZE_T_LIMIT == size + DSIZE + (DSIZE - 1);
  }

  /**
   * `malloc(SIZE_MAX)` asks for a 2-word block: smaller than the minimum
   * block and far short of the request, where the unwrapped count is a
   * block that holds it.
   */
  lemma AdjustedWordsWraps()
    ensures AdjustedWordsAsWritten(SIZE_T_LIMIT - 1) == 2 < BLOCKSIZE_MIN
    ensures WSIZE * AdjustedWordsAsWritten(SIZE_T_LIMIT - 1) < SIZE_T_LIMIT - 1 + DSIZE
    ensures WSIZE * AdjustedWords(SIZE_T_LIMIT - 1) >= SIZE_T_LIMIT - 1 + DSIZE
  {
    AdjustedWordsBounds(SIZE_T_LIMIT - 1, 0);
  }
}

