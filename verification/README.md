# Six components of the Introduction to Computer Systems labs, in Dafny

This project models the sequential core of four labs of the
IntroductionComputerSystem repository and proves properties about it:

- **MallocLab** (`mm.c`): a segregated-fit allocator. A block starts with a
  32-bit boundary tag: its size in words in bits 0-29 and the allocated flag
  in bit 30. Free blocks are linked in 12 power-of-two size classes through
  32-bit offsets from the heap base. The model is a word array (`MmHeap.Heap`)
  holding those exact bit patterns, plus a ghost list of the blocks in
  address order and a ghost list of each class's members. The modules are:
  - `MmCodec`: tags, links, classes and request rounding;
  - `MmHeap`: block words and the layout invariant;
  - `MmLists`: `add_to_free_list` and `delete_block`;
  - `MmFit`: `find_first_fit`;
  - `MmPlace`, `MmCombine`, `MmExtend`: `place`, `combine_block`, `extend_heap`;
  - `MmSteps`: those steps packaged for callers;
  - `MmAlloc`: `coalesce`, `malloc`, `free`, `realloc`, `calloc`;
  - `MmAdjacent`: the coalescing invariant that `check_coalescing` tests, no
    two neighbouring blocks both free, and how each step keeps it;
  - `MmInit`: `mm_init`.
- **CacheLab** (`csim.c`): a set-associative cache simulator with LRU
  replacement by time stamps (`Csim`). It counts hits, misses and evictions
  over a trace. Each access takes a tag rule: `Masked` is the source's
  `catch_TagBits`, which keeps only s + b tag bits, and `Full` keeps every
  bit above the set bits (see Findings).
- **CacheLab** (`trans.c`): the baseline transpose and the three blocked
  transposes for 32 x 32, 64 x 64 and 61 x 67 (`Transpose`). Arrays are flat,
  in row-major order.
- **ProxyLab** (`cache.c`, `proxy.c`): the web object cache. It is a list keyed
  by host, port and uri, with a byte budget and least-time-stamp eviction
  (`ProxyCache`). Also modelled are the url splitter and the bounded object
  buffer (`ProxyUrl`), for absolute urls in the `http_URL` form of section
  3.2.2 of RFC 1945.
- **TshLab** (`tsh.c`): the command-line tokenizer `parseline` (`TshParse`).
  Also modelled are the 16-slot job table and the state changes of the `fg`
  and `bg` builtins (`TshJobs`).

Shared modules:

- `Outcomes`: `Option` and `Outcome`. `Fault` stands for undefined behaviour
  in the C code, such as a NULL dereference or a read past a buffer.
- `CStr`: `strchr`, `strstr`, `strspn`, `strcspn` and `atoi` on strings
  without their terminating NUL, with the decimal rendering `atoi` inverts.
- `Bits`: shifts, masks, AND and OR on naturals.
- `Seqs`: sequence helpers.

Three things are passed in as parameters:

- `mem_sbrk` is the `limit` field of the heap. Growth succeeds while the heap
  stays within it.
- A csim trace is a sequence of parsed lines.
- Each network read of the proxy is a byte buffer argument.

Where the design comments and the code disagree, the model follows the code.

- tsh.c:32-40 lists a BG to FG transition for `fg`. The code at
  tsh.c:473-500 changes only stopped jobs, so a running background job stays
  in the background.
- The comment on `realloc` (mm.c:664-668) says `malloc` is used only when
  the block must grow. The code calls `malloc` first, always. Both are
  modelled: `MmAlloc.ReallocAsWritten` and the corrected `MmAlloc.Realloc`.
- The `REQUIRES(oldptr != NULL)` of `realloc` and the `REQUIRES(ptr != NULL)`
  of `free` contradict the NULL branches that follow them. The model keeps
  the branches.

## Model

| member | source | states |
|---|---|---|
| MmCodec.Pack | Project/MallocLab/mm.c:77 | for a size below 2^30 and a flag of 0 or 1, the OR of the size with the flag shifted to bit 30 is their arithmetic sum |
| MmCodec.SizeFieldIsMask | Project/MallocLab/mm.c:204-209 | `block[0] & 0x3FFFFFFF` is the word modulo 2^30 |
| MmCodec.FreeFieldIsMask | Project/MallocLab/mm.c:170-175 | `!(block[0] & 0x40000000)` holds exactly when bit 30 is clear |
| MmCodec.MarkFreeIsMask | Project/MallocLab/mm.c:179-193 | the AND with `0xBFFFFFFF` of a 32-bit tag clears bit 30 and nothing else |
| MmCodec.MarkAllocIsMask | Project/MallocLab/mm.c:179-193 | the OR with `0x40000000` of a 32-bit tag sets bit 30 and stays within 32 bits |
| MmCodec.PackRoundTrip | Project/MallocLab/mm.c:170-175 | with `PACK` (line 77) and `block_size` (lines 204-209): packing then reading the size and the free flag gives back the size and the flag, and the packed word is a well-formed tag |
| MmCodec.TagIsPacked | Project/MallocLab/mm.c:77 | every well-formed tag is the packing of its own size and flag |
| MmCodec.MarkFreeFields | Project/MallocLab/mm.c:179-193 | marking a tag free keeps its size and makes it read free |
| MmCodec.MarkAllocFields | Project/MallocLab/mm.c:179-193 | marking a tag allocated keeps its size and makes it read allocated |
| MmCodec.Convert32To64 | Project/MallocLab/mm.c:78 | the address is NULL exactly for link 0 |
| MmCodec.Convert64To32 | Project/MallocLab/mm.c:79 | NULL becomes link 0 |
| MmCodec.LinkRoundTrip32 | Project/MallocLab/mm.c:78-79 | a nonzero 32-bit link survives conversion to an address and back |
| MmCodec.LinkRoundTrip64 | Project/MallocLab/mm.c:78-79 | an address whose offset is nonzero and below 2^32 survives conversion to a link and back |
| MmCodec.BaseReadsAsNull | Project/MallocLab/mm.c:78-79 | the base address itself converts to link 0, which reads back as NULL |
| MmCodec.PtrLinkRoundTrip | Project/MallocLab/mm.c:259-292 | every block index of a heap below 2^30 words is recovered from the link stored for it, and only index 0 is stored as 0 |
| MmCodec.LinkReadBack | Project/MallocLab/mm.c:279-292 | a word-aligned link read by `get_pred_ptr`/`get_succ_ptr` is exactly the link `set_pred_ptr`/`set_succ_ptr` store for the index read |
| MmCodec.GetClassNo | Project/MallocLab/mm.c:741-767 | the class number is below 12 |
| MmCodec.InverseGetClassNo | Project/MallocLab/mm.c:853-878 | the bound of a class is at least 4; one below it still lies in the class, and below the last class the bound itself lies in the next class |
| MmCodec.ClassMonotone | Project/MallocLab/mm.c:741-767 | a larger size never lands in a smaller class |
| MmCodec.ClassBracket | Project/MallocLab/mm.c:741-767 | with `inverse_get_class_no` (lines 853-878) and `check_seg_list` (lines 880-895): a size's class is the one whose bounds bracket it: below `inverse_get_class_no` of its class and, above class 0, not below the previous bound; this is the bucket rule `check_seg_list` enforces |
| MmCodec.InverseMonotone | Project/MallocLab/mm.c:853-878 | class bounds never decrease as the class number grows |
| MmCodec.AdjustedWordsBounds | Project/MallocLab/mm.c:577-587 | the adjusted request is even, at least 4 words, holds the request plus header and footer, and is the least such word count |
| MmCodec.AdjustedWordsAgree | Project/MallocLab/mm.c:581-587 | below the 64-bit wrap, the source's `size_t` computation equals the adjusted request |
| MmCodec.AdjustedWordsWraps | Project/MallocLab/mm.c:581-587 | `malloc(SIZE_MAX)` computes a 2-word block, smaller than the minimum block and far short of the request |
| MmCodec.AdjustedWordsAsWritten | Project/MallocLab/mm.c:581-587 | the `size_t` word count is even, and a request whose rounding overflows gets fewer words than the minimum block |
| MmHeap.Put | Project/MallocLab/mm.c:219-224 | exactly one word changes, to the given value |
| MmHeap.Size | Project/MallocLab/mm.c:204-209 | the size read from a tag is below 2^30 |
| MmHeap.PredOf | Project/MallocLab/mm.c:279-284 | the predecessor read is a block index below 2^30, and a zero link reads as NULL |
| MmHeap.SuccOf | Project/MallocLab/mm.c:287-292 | the successor read is a block index below 2^30, and a zero link reads as NULL |
| MmHeap.Footer | Project/MallocLab/mm.c:244-249 | the footer word lies at or after the header and inside the heap |
| MmHeap.SetPred | Project/MallocLab/mm.c:259-266 | only the predecessor word changes, and a predecessor below 2^30 words (0 for NULL) reads back from it |
| MmHeap.SetSucc | Project/MallocLab/mm.c:269-276 | only the successor word changes, and a successor below 2^30 words (0 for NULL) reads back from it |
| MmHeap.BlockMark | Project/MallocLab/mm.c:179-193 | only header and footer change; the size is kept, the flag is the requested one, and header equals footer |
| MmHeap.InitBlock | Project/MallocLab/mm.c:375-395 | the header holds the size and reads free, the footer equals it, both links are NULL for a block of at least 4 words, and no other word changes |
| MmHeap.CombineBlock | Project/MallocLab/mm.c:544-563 | the first block's header and footer hold the summed size and read free; nothing else changes |
| MmHeap.LayoutOrdered | Project/MallocLab/mm.c:774-808 | blocks lie in strictly increasing address order, each ending before any later one starts |
| MmHeap.Disjoint | Project/MallocLab/mm.c:774-808 | distinct blocks occupy disjoint word ranges |
| MmHeap.LayoutBounds | Project/MallocLab/mm.c:774-808 | as `in_heap` (lines 145-147) asks of each block: every block lies between the prologue and the end of the heap |
| MmHeap.BlockFacts | Project/MallocLab/mm.c:829-832 | a real block has a well-formed header equal to its footer and lies strictly between prologue and epilogue |
| MmHeap.OddBlocks | Project/MallocLab/mm.c:319-328 | every block header is an odd word, since the first block follows the padding and prologue and every size is even |
| MmHeap.PayloadAligned | Project/MallocLab/mm.c:824-827 | the payload of every block is double-word aligned, as `aligned` (lines 138-140) checks, and the header one word before it is not |
| MmHeap.Separate | Project/MallocLab/mm.c:774-808 | two different real blocks do not overlap |
| MmHeap.LayoutFrame | Project/MallocLab/mm.c:774-808 | a change confined to one block that keeps its size and matching tags keeps the layout and every other block's header |
| MmLists.ListedClass | Project/MallocLab/mm.c:880-895 | a listed block is a free block of the heap, on the list of its own class, with its links inside the heap |
| MmLists.AddToFreeList | Project/MallocLab/mm.c:398-430 | the block is re-initialised free and pushed on the front of its class list |
| MmLists.AddToFreeListHead | Project/MallocLab/mm.c:398-430 | afterwards the block is free with header equal to footer and heads its class list; its predecessor is NULL, its successor is the old head, and the old head points back to it |
| MmLists.AddToFreeListFrame | Project/MallocLab/mm.c:398-430 | only the block's words and the old head's predecessor word change |
| MmLists.AddToFreeListInv | Project/MallocLab/mm.c:398-430 | on a block on no list, the heap stays coherent, the block joins the front of its class list, and no other header changes |
| MmLists.DeleteBlock | Project/MallocLab/mm.c:499-540 | the block is unlinked through the class head or its predecessor, then re-initialised and marked allocated |
| MmLists.DeleteBlockHead | Project/MallocLab/mm.c:499-540 | afterwards the block is allocated with its size and header equal to footer; its list neighbours are linked to each other, and the class head moves on when the block was the head |
| MmLists.DeleteBlockFrame | Project/MallocLab/mm.c:499-540 | only the block's words and its neighbours' link words change |
| MmLists.DeleteUnlinks | Project/MallocLab/mm.c:499-540 | the block's class list loses the block at its position and keeps the rest in order |
| MmLists.DeleteKeepsClass | Project/MallocLab/mm.c:499-540 | the unlinked block's class list loses exactly that block |
| MmLists.DeleteBlockInv | Project/MallocLab/mm.c:499-540 | on a listed block, the heap stays coherent, the block leaves its list allocated, and no other header changes |
| MmLists.AddThenDelete | Project/MallocLab/mm.c:398-430 | with `delete_block` (lines 499-540): `add_to_free_list` then `delete_block` of one block restores the class table and the lists and leaves the block allocated with its size |
| MmLists.AddThenDeleteSeg | Project/MallocLab/mm.c:398-430 | with `delete_block` (lines 499-540): a push then an unlink of one block leave the class table as it was |
| MmFit.FitIn | Project/MallocLab/mm.c:445-451 | the first block of a list with at least the requested words, or 0 when there is none |
| MmFit.FirstFitSpec | Project/MallocLab/mm.c:434-455 | the reference answer is NULL exactly when no listed block of the request's class or above is large enough; otherwise it is such a block |
| MmFit.FirstFitFree | Project/MallocLab/mm.c:434-455 | on a coherent heap a non-NULL answer is a free block |
| MmFit.ScanList | Project/MallocLab/mm.c:443-451 | following the successor links from the head answers the first block of that list that is large enough |
| MmFit.FindFirstFit | Project/MallocLab/mm.c:434-455 | the loop over classes from the request's class upward answers the reference first fit |
| MmPlace.MarkInv | Project/MallocLab/mm.c:179-193 | marking an unlisted block keeps the heap coherent; a block marked free needs listing, one marked allocated does not |
| MmPlace.SplitBlockEffect | Project/MallocLab/mm.c:642-656 | the front gets n-word tags and is allocated, and the remainder is an initialised free block right after it |
| MmPlace.SplitInv | Project/MallocLab/mm.c:642-656 | splitting an unlisted block keeps the heap coherent; the front is an allocated n-word block and the remainder is a free block awaiting listing |
| MmCombine.CombineLayout | Project/MallocLab/mm.c:544-563 | merging two adjacent blocks gives the layout without the second block, with the first covering both |
| MmCombine.CombineInv | Project/MallocLab/mm.c:544-563 | merging two adjacent unlisted blocks keeps the heap coherent; the second block disappears and the first reads free |
| MmExtend.EvenUp | Project/MallocLab/mm.c:357 | an odd word count is rounded up by one, an even one kept |
| MmExtend.Sbrk | Project/MallocLab/mm.c:358-361 | the heap grows by n words at the end and keeps every old word |
| MmExtend.ExtendHeap | Project/MallocLab/mm.c:351-372 | the heap grows by the even-rounded word count and keeps its class table and limit |
| MmExtend.ExtendHeapEffect | Project/MallocLab/mm.c:351-372 | the new block's footer matches its header, the last word is the epilogue, and every word before the old epilogue is unchanged |
| MmExtend.ExtendInvAt | Project/MallocLab/mm.c:351-372 | extension keeps the heap coherent, with the new free block at the end of the block list awaiting listing |
| MmSteps.Mark | Project/MallocLab/mm.c:179-193 | an unlisted block keeps its size and gets the requested state |
| MmSteps.Push | Project/MallocLab/mm.c:398-430 | the block becomes free and the new head of its class list |
| MmSteps.Unlink | Project/MallocLab/mm.c:499-540 | the block becomes allocated with its size, leaves every list, and every other block stays listed |
| MmSteps.Split | Project/MallocLab/mm.c:642-656 | the block becomes an allocated n-word block followed by a new free block |
| MmSteps.Combine | Project/MallocLab/mm.c:544-563 | the first block takes the summed size and reads free, and the second leaves the block list |
| MmSteps.Extend | Project/MallocLab/mm.c:351-372 | the old epilogue heads a new free block of the rounded size, closed by a new epilogue |
| MmAlloc.Neighbours | Project/MallocLab/mm.c:152-167 | `block_prev` and `block_next` find the physical neighbours through the previous footer and the header size, and a free neighbour is adjacent |
| MmAlloc.Place | Project/MallocLab/mm.c:630-660 | if at most 4 words would remain, the whole block is allocated and the lists are unchanged; otherwise the block becomes n words, followed by a listed free block, and the two sizes sum to the original |
| MmAlloc.PlacedCoalesced | Project/MallocLab/mm.c:630-660 | `place` on a block followed by an allocated block, in a heap coalesced away from it, leaves the heap coalesced: the rest, if any, is followed by that allocated block |
| MmAlloc.Coalesce | Project/MallocLab/mm.c:458-492 | the result is the previous block if that is free, else the block itself; its size is the sum of the merged blocks and it reads free; merged neighbours leave the lists; with no free neighbour nothing changes; on a heap coalesced away from the block, the result is coalesced and both neighbours of the merged block are allocated |
| MmAlloc.CoalesceCoalesced | Project/MallocLab/mm.c:458-492 | on a heap coalesced away from the freed block, the merged result is coalesced everywhere |
| MmAlloc.MergedCoalesced | Project/MallocLab/mm.c:458-492 | the merged block is followed by the allocated block that followed the last block merged |
| MmAlloc.UnmergedCoalesced | Project/MallocLab/mm.c:458-492 | every block the merge leaves alone keeps its tag and is not followed by a free block |
| MmAlloc.PrevOfAdjacent | Project/MallocLab/mm.c:152-167 | a block that ends where b starts is the block `block_prev` finds before b |
| MmAlloc.FreeNeighbours | Project/MallocLab/mm.c:834-839 | in a coalesced heap both physical neighbours of a free block are allocated |
| MmAlloc.CoalescePrev | Project/MallocLab/mm.c:474-477 | only the previous block is free: the block merges into it |
| MmAlloc.CoalesceNext | Project/MallocLab/mm.c:479-482 | only the next block is free: it merges into the block |
| MmAlloc.CoalesceBoth | Project/MallocLab/mm.c:484-489 | both neighbours are free: all three merge into the previous block, and both neighbours leave their lists |
| MmAlloc.Free | Project/MallocLab/mm.c:612-627 | NULL or a pointer outside the heap changes nothing; otherwise the block is freed, merged with its free neighbours, and heads its class list; every other allocation survives; a coalesced heap stays coalesced, and the freed block's neighbours are allocated |
| MmAlloc.FreeBlock | Project/MallocLab/mm.c:622-625 | freeing an allocated block leaves a coherent heap in which the merged block covering it heads its class list; a coalesced heap stays coalesced with both neighbours of the merged block allocated |
| MmAlloc.Release | Project/MallocLab/mm.c:624-625 | `coalesce` then `add_to_free_list` on a block just marked free: the merged block holds it, heads its class list, is the block itself when the previous block is allocated, allocates nothing new and keeps every allocation; a heap coalesced away from the block becomes coalesced |
| MmAlloc.ReleaseNothingNew | Project/MallocLab/mm.c:624-625 | merging into a free block and listing it allocates nothing new |
| MmAlloc.FreeKeeps | Project/MallocLab/mm.c:622-625 | coalescing and listing keep every other allocation and its size |
| MmAlloc.Malloc | Project/MallocLab/mm.c:569-606 | 0 gives NULL; `(void *)-1` exactly when nothing fits and the heap cannot grow; otherwise a newly allocated, double-word aligned payload whose block holds the request plus its tags, at most 4 words over the adjusted size; a fit is used when one exists, else the block starts at the old epilogue; other allocations survive; a coalesced heap stays coalesced |
| MmAlloc.FitOrNone | Project/MallocLab/mm.c:590 | the first fit is NULL exactly when nothing fits; otherwise it is a free listed block that fits |
| MmAlloc.MallocFit | Project/MallocLab/mm.c:590-594 | the fit is unlinked and placed: allocated with at least n words and at most 4 over; a coalesced heap stays coalesced, since the fit was free and so followed by an allocated block |
| MmAlloc.MallocExtend | Project/MallocLab/mm.c:597-605 | the heap grows by at least a chunk, and the old epilogue becomes the allocated block; a coalesced heap stays coalesced |
| MmAlloc.ReallocAsWritten | Project/MallocLab/mm.c:669-721 | size 0 frees and answers NULL; a NULL pointer gets exactly what `malloc` promises; the copy writes through `(void *)-1` exactly when the block must grow and `malloc` fails; a grow that `malloc` serves returns a new block holding the request, frees the old one and keeps every other allocation; when the block is large enough it is cut down in place, and any block `malloc` handed out stays allocated with no pointer to it; every payload returned is double-word aligned |
| MmAlloc.ReallocBlockAsWritten | Project/MallocLab/mm.c:697-720 | once `ptr` points into an allocated block and the size is not 0: a fault exactly when the block must grow and `malloc` fails; a grow that `malloc` serves returns a new block holding the request, frees the old one and keeps every other allocation; otherwise the block is cut in place and the block `malloc` handed out stays allocated; the payload is double-word aligned |
| MmAlloc.MoveAsWritten | Project/MallocLab/mm.c:706-713 | after `malloc` answered: `(void *)-1` faults; a new block is returned, holds the request, is double-word aligned, and the old block is freed with every other allocation kept |
| MmAlloc.CutAsWritten | Project/MallocLab/mm.c:715-718 | after `malloc` answered: the block is cut in place to between the adjusted size and 4 words more, its aligned payload is returned, and a block `malloc` handed out stays allocated |
| MmAlloc.GrowAsWritten | Project/MallocLab/mm.c:708-713 | a `(void *)-1` reply faults; otherwise the old block is freed and the new pointer returned |
| MmAlloc.GrownAsWritten | Project/MallocLab/mm.c:706-713 | the block `malloc` handed out for the grow is not the old block, survives its `free` with the requested size, and every other allocation survives too |
| MmAlloc.ShrinkAsWritten | Project/MallocLab/mm.c:715-718 | `place` on an allocated block keeps it allocated, between n and n + 4 words, and allocates nothing new; a coalesced heap stays coalesced exactly when the block is not cut or the block after it is allocated |
| MmAlloc.ShrinkCoalesced | Project/MallocLab/mm.c:715-718 | on a coalesced heap, `place` on an allocated block leaves it coalesced if and only if the block is not cut or the block after it is allocated |
| MmAlloc.Shrink | Project/MallocLab/mm.c:715-718 | the corrected in-place branch: the block stays allocated with between n and n + 4 words, nothing else changes when it is not cut, every other allocation survives, nothing new is allocated, and a coalesced heap stays coalesced |
| MmAlloc.ShrinkCut | Project/MallocLab/mm.c:715-718 | the cutting case of `Shrink`: the block keeps exactly n words and the released rest leaves a coalesced heap coalesced |
| MmAlloc.CutFront | Project/MallocLab/mm.c:642-656 | the cut of `place` on an allocated block: the block keeps n allocated words, the rest is a new free block right after it awaiting listing, and a coalesced heap is coalesced except around the rest |
| MmAlloc.ShrinkKeeps | Project/MallocLab/mm.c:715-718 | cutting the block and releasing the rest keeps the block with n words and every other allocation, and allocates nothing new |
| MmAlloc.PlaceNothingNew | Project/MallocLab/mm.c:715-718 | a step that keeps every other header and adds only free blocks allocates nothing new |
| MmAlloc.Realloc | Project/MallocLab/mm.c:664-721 | never faults; a NULL pointer gets exactly what `malloc` promises; a grow gives a new block holding the request and frees the old one; a shrink stays in place and allocates nothing new; other allocations survive; every payload returned is double-word aligned; a coalesced heap stays coalesced |
| MmAlloc.ReallocNull | Project/MallocLab/mm.c:690-693 | `realloc(NULL, size)` with a nonzero size: `(void *)-1` exactly when `malloc` fails, with nothing changed, otherwise a new aligned block holding the request with every allocation kept |
| MmAlloc.ReallocBlock | Project/MallocLab/mm.c:697-720 | the corrected realloc of an allocated block with a nonzero size: `(void *)-1` with nothing changed exactly when it must grow and `malloc` fails, a new block holding the request when it grows, the same block cut to the adjusted size otherwise; the payload is double-word aligned; a coalesced heap stays coalesced |
| MmAlloc.Grow | Project/MallocLab/mm.c:697-713 | `(void *)-1` exactly when `malloc` fails, and then nothing changes; otherwise a new double-word aligned block holding the request, with the old block freed; a coalesced heap stays coalesced |
| MmAlloc.GrowTail | Project/MallocLab/mm.c:711-713 | once `malloc` served the grow, the old block is freed, the new one kept with its size, and every other allocation survives |
| MmAlloc.FreeOld | Project/MallocLab/mm.c:712 | freeing the old block keeps the new block allocated with its size, and a coalesced heap coalesced |
| MmAlloc.ElementSize | Project/MallocLab/mm.c:731-733 | an element size below 4 is raised to 4; others are kept |
| MmAlloc.CallocBytesAsWritten | Project/MallocLab/mm.c:735 | the 64-bit product wraps modulo 2^64 and equals the true product when it fits |
| MmAlloc.CallocWraps | Project/MallocLab/mm.c:735 | 2^62 + 1 elements of 4 bytes wrap to a 4-byte request |
| MmAlloc.CallocAsWritten | Project/MallocLab/mm.c:726-737 | NULL exactly when the wrapped product is 0; a block holds the wrapped byte count only; the payload is double-word aligned; a coalesced heap stays coalesced |
| MmAlloc.Calloc | Project/MallocLab/mm.c:726-737 | NULL exactly for no elements or an overflowing product, with nothing changed; otherwise a new double-word aligned block holding every element; a coalesced heap stays coalesced |
| MmAdjacent.NoAdjacentFreeIndex | Project/MallocLab/mm.c:834-839 | on a laid-out heap, no free block being followed by a free block is the same as no two consecutive blocks both being free, the pairs `check_coalescing` tests from each block back |
| MmAdjacent.CoalescedPairs | Project/MallocLab/mm.c:834-839 | the forward reading gives the pairwise one |
| MmAdjacent.PairsCoalesced | Project/MallocLab/mm.c:834-839 | the pairwise reading gives the forward one |
| MmAdjacent.KeepsNoAdjacentFreeBut | Project/MallocLab/mm.c:622-623 | marking one block free in a coalesced heap keeps it coalesced away from that block |
| MmAdjacent.KeepsNoAdjacentFree | Project/MallocLab/mm.c:398-430 | a change to one block's header that keeps its size and state, as `add_to_free_list` makes, keeps the heap coalesced |
| MmAdjacent.KeepsFollowed | Project/MallocLab/mm.c:499-540 | a change to one block's header that keeps its size, as `delete_block` makes, keeps whether a free block follows it |
| MmAdjacent.PlaceCoalesced | Project/MallocLab/mm.c:630-660 | allocating a block followed by an allocated block, whole or cut with the rest ending where the block ended, in a heap coalesced away from it, leaves the heap coalesced |
| MmAdjacent.KeptCoalesced | Project/MallocLab/mm.c:630-660 | a block other than the placed one keeps its tag and is not followed by a free block |
| MmAdjacent.RestCoalesced | Project/MallocLab/mm.c:649-658 | the rest cut off a block is followed by the block that followed it |
| MmAdjacent.CutAround | Project/MallocLab/mm.c:642-656 | cutting an allocated block keeps the heap coalesced away from the new rest |
| MmAdjacent.ExtendAround | Project/MallocLab/mm.c:351-372 | growing a coalesced heap keeps it coalesced away from the new block, which the new epilogue follows |
| MmInit.OnlyBlockCoalesced | Project/MallocLab/mm.c:330-347 | the initial heap's one free block is followed by the epilogue, so the heap is coalesced |
| MmInit.EmptyLists | Project/MallocLab/mm.c:312-316 | twelve empty class lists |
| MmInit.InitialInv | Project/MallocLab/mm.c:306-348 | the initial heap is coherent, with its one chunk awaiting listing and every list empty |
| MmInit.Prologue | Project/MallocLab/mm.c:311-328 | a `Fault` exactly when the unchecked first growth does not fit; false exactly when the second does not; otherwise the class table is zeroed and the prologue tags are in place |
| MmInit.FirstChunk | Project/MallocLab/mm.c:330-347 | afterwards the heap is coherent with one free chunk, listed in its class, and coalesced |
| MmInit.Init | Project/MallocLab/mm.c:306-348 | a `Fault` exactly when the class table itself does not fit; 0 exactly when the initial words fit the limit, and then one free chunk of 64 words is the only listed block and the heap is coalesced; -1 otherwise |
| Csim.LowOnes | Project/CacheLab/csim.c:117-123 | `0x7fffffff >> (31 - k)` is the mask of the k low bits |
| Csim.SetBits | Project/CacheLab/csim.c:109-115 | the set index is the block number modulo 2^s, always below 2^s |
| Csim.TagBitsAsWritten | Project/CacheLab/csim.c:117-123 | the source's tag keeps only the low s + b bits above the set bits |
| Csim.TagBits | Project/CacheLab/csim.c:117-123 | the full tag is the address divided by 2^(s+b) |
| Csim.SameLineIffSameBlock | Project/CacheLab/csim.c:109-123 | with the full tag, two addresses share set and tag exactly when they lie in the same block |
| Csim.TagAliasing | Project/CacheLab/csim.c:117-123 | with the tag as written, addresses 0 and 16 share set and tag for s = b = 1, although they lie in different blocks |
| Csim.InitializeCache | Project/CacheLab/csim.c:166-193 | more than 2^s sets (the source allocates `2 << s`) of E lines, each invalid, unflagged and zero-stamped; counters zero; the cache is coherent |
| Csim.First | Project/CacheLab/csim.c:208-233 | the scans of `load` find the first matching line, or report that none matches |
| Csim.MinLine | Project/CacheLab/csim.c:268-276 | the scan keeps a line no later than the start in stamp order and below every valid line after it |
| Csim.Victim | Project/CacheLab/csim.c:264-280 | the flagged line is a least recently used valid line |
| Csim.UpdateReplaceFlag | Project/CacheLab/csim.c:264-280 | only the flags change, and exactly one line is flagged: the least recently used one |
| Csim.Touch | Project/CacheLab/csim.c:214-217 | as at lines 230-233 and 247-250 too: the line gets the tag and stamp and becomes valid; other lines keep their contents, and exactly the LRU line is flagged |
| Csim.Access | Project/CacheLab/csim.c:197-253 | exactly one of hit and miss grows; a hit exactly when a valid line holds the tag; an eviction exactly on a miss in a set with no invalid line; only that set changes |
| Csim.AccessLine | Project/CacheLab/csim.c:205-252 | the touched line is the hit, else the first invalid line, else the LRU line |
| Csim.AccessEffect | Project/CacheLab/csim.c:205-252 | the stamp advances by one; the touched line gets the new stamp, larger than every other valid stamp of its set, and no other line changes |
| Csim.RepeatHits | Project/CacheLab/csim.c:205-219 | a second access to the same set and tag is a hit |
| Csim.Load | Project/CacheLab/csim.c:197-253 | one of hit and miss grows, and a hit exactly when a valid line of the address's set holds its tag; with the `Masked` rule that is the tag of `catch_TagBits` as written, with `Full` the whole block number above the set bits |
| Csim.AliasedHit | Project/CacheLab/csim.c:117-123 | with the lookup at lines 205-219: after loading address 0, loading 16 counts a hit with the tag as written and a miss with the full tag |
| Csim.AliasedReplay | Project/CacheLab/csim.c:76-98 | the trace `L 0`, `L 16` with s = E = b = 1 counts one miss and one hit as written, and two misses with the full tag |
| Csim.Store | Project/CacheLab/csim.c:257-260 | a store counts exactly as a load, under the same tag rule |
| Csim.Step | Project/CacheLab/csim.c:78-97 | `I` lines are skipped, `L` and `S` make one access, `M` makes two; the counts grow by that number, under either tag rule |
| Csim.Replay | Project/CacheLab/csim.c:76-98 | replaying a trace keeps the cache shape; with `Masked` it is the source's loop |
| Csim.ReplayCounts | Project/CacheLab/csim.c:76-98 | over a trace, hits plus misses grow by the number of accesses, and the cache stays coherent, under either tag rule |
| Csim.StepOk | Project/CacheLab/csim.c:78-97 | one trace line keeps the cache coherent, under either tag rule |
| Csim.LoadOk | Project/CacheLab/csim.c:197-253 | a load keeps the cache coherent, under either tag rule |
| Csim.ModifyStoreHits | Project/CacheLab/csim.c:91-94 | the store half of an `M` line always hits, under either tag rule |
| Transpose.Put | Project/CacheLab/trans.c:61 | an element write changes that element and no other |
| Transpose.Transposed | Project/CacheLab/trans.c:188-200 | the transposed array as a value, of size M * N |
| Transpose.TransposeUnique | Project/CacheLab/trans.c:188-200 | `is_transpose` holds against exactly one B, the transposed array |
| Transpose.TransposeIsTransposed | Project/CacheLab/trans.c:188-200 | a B that passes `is_transpose` equals the transposed array |
| Transpose.TransposedIsTranspose | Project/CacheLab/trans.c:188-200 | the transposed array passes `is_transpose` |
| Transpose.IsTransposeCheck | Project/CacheLab/trans.c:188-200 | answers 1 exactly when every `A[i][j]` equals `B[j][i]`, else 0 |
| Transpose.Trans | Project/CacheLab/trans.c:149-164 | B becomes the transpose of A |
| Transpose.RowPointer | Project/CacheLab/trans.c:49-63 | `B_buf[r]`, with `B_buf = B[j]` and r = p + n(q - j), is element (q, p) of B |
| Transpose.RowWrite | Project/CacheLab/trans.c:55-64 | the write through the row pointer stays inside both arrays and sets `B[q][p]` to `A[p][q]` |
| Transpose.RowStep | Project/CacheLab/trans.c:57-63 | one q step writes the mirror element unless it is the diagonal |
| Transpose.RowLoop | Project/CacheLab/trans.c:55-64 | the q loop mirrors row p of A into column p of the block of B, except the diagonal, and changes nothing else |
| Transpose.BlockRow | Project/CacheLab/trans.c:47-68 | with the diagonal through `temp`, row p of the block is fully mirrored and nothing else changes |
| Transpose.DiagonalBlockRow | Project/CacheLab/trans.c:49-67 | on a diagonal block, with element (p, p) of A kept in `temp` across the q loop: column p of the block of B mirrors row p of A and nothing else changes |
| Transpose.OffDiagonalBlockRow | Project/CacheLab/trans.c:49-64 | off the diagonal the q loop alone mirrors row p of A into column p of the block of B and changes nothing else |
| Transpose.DiagonalPut | Project/CacheLab/trans.c:52-67 | on a diagonal block, the write of `temp` after the q loop completes column p of the block and changes nothing else |
| Transpose.OffDiagonalRow | Project/CacheLab/trans.c:55-64 | off the diagonal the q loop writes every element of column p of the block |
| Transpose.SquareBlock | Project/CacheLab/trans.c:47-68 | one block of B mirrors the block of A; everything outside it is unchanged |
| Transpose.Submit32 | Project/CacheLab/trans.c:41-71 | the 32 x 32 branch yields the transpose |
| Transpose.Submit64 | Project/CacheLab/trans.c:77-108 | the 64 x 64 branch yields the transpose |
| Transpose.RectBlock | Project/CacheLab/trans.c:121-131 | one bounds-checked 8 x 8 block of the 61 x 67 case mirrors A, stays in bounds, and changes nothing else |
| Transpose.Submit6167 | Project/CacheLab/trans.c:115-134 | the 61 x 67 branch yields the transpose |
| Transpose.TransposeSubmit | Project/CacheLab/trans.c:31-138 | for the three handled shapes B becomes the transpose of A; for any other shape B is unchanged |
| ProxyCache.InitializeCache | Project/ProxyLab/cache.c:20-26 | the empty cache with counter 0, whose total equals the sum of its sizes |
| ProxyCache.FindFrom | Project/ProxyLab/cache.c:44-51 | the first element from a position on that matches host, port and uri, or none |
| ProxyCache.CheckCacheList | Project/ProxyLab/cache.c:32-62 | the counter grows by one; a hit is the first matching element, and its stamp becomes the new counter; a miss changes nothing else |
| ProxyCache.CheckKeepsTotal | Project/ProxyLab/cache.c:32-62 | a lookup keeps the total equal to the sum of the sizes |
| ProxyCache.LeastFrom | Project/ProxyLab/cache.c:143-147 | the running minimum is at most the start and every stamp, and is the start or some stamp |
| ProxyCache.UpdateLeastTime | Project/ProxyLab/cache.c:137-149 | the least stamp in the list, attained by some element |
| ProxyCache.Walk | Project/ProxyLab/cache.c:121-132 | with a tail check, the walk keeps the head, unlinks only least-stamped elements in order, and the freed bytes account for the difference |
| ProxyCache.WalkShrinks | Project/ProxyLab/cache.c:121-132 | when an element after the head carries the least stamp, the walk unlinks at least one |
| ProxyCache.WalkAsWritten | Project/ProxyLab/cache.c:121-132 | the walk as written, when it completes, agrees with the checked walk |
| ProxyCache.WalkNoVictimFaults | Project/ProxyLab/cache.c:121-132 | a walk that meets no least-stamped element faults at the tail |
| ProxyCache.UniqueVictim | Project/ProxyLab/cache.c:121-132 | with one least-stamped element after the head, the walk as written faults exactly when that element is not the tail |
| ProxyCache.Round | Project/ProxyLab/cache.c:110-132 | one round unlinks at least one element, only of the least stamp, and keeps the unlisted part of the total |
| ProxyCache.Eviction | Project/ProxyLab/cache.c:103-134 | rounds run until the total is within budget; a cache already within budget is unchanged |
| ProxyCache.EvictionLru | Project/ProxyLab/cache.c:103-134 | for some stamp m, every unlinked element has a stamp of at most m, every survivor at least m, and the survivors keep their order |
| ProxyCache.RoundAsWritten | Project/ProxyLab/cache.c:110-132 | a round as written, when it completes, agrees with the checked round |
| ProxyCache.EvictionAsWritten | Project/ProxyLab/cache.c:103-134 | eviction as written agrees with the checked one when it completes, and faults when the unlisted part of the total alone exceeds the budget |
| ProxyCache.Stored | Project/ProxyLab/cache.c:80-81 | the calloc'd object buffer holds the copied bytes and zeros after them |
| ProxyCache.InsertToCache | Project/ProxyLab/cache.c:65-100 | the new element heads the list; the counter grows by one; the total equals the sum of the sizes and is within budget; without eviction the old list follows unchanged |
| ProxyCache.InsertLru | Project/ProxyLab/cache.c:85-96 | the elements an insertion evicts were least recently used, and the rest keep their order |
| ProxyCache.LookupAfterInsert | Project/ProxyLab/cache.c:65-100 | with `check_cache_list` (lines 32-62): an object just inserted is the first hit for its key, with its bytes intact |
| ProxyCache.InsertAsWritten | Project/ProxyLab/cache.c:65-100 | insertion as written, when it completes, agrees with the corrected one |
| ProxyCache.MiddleVictimFault | Project/ProxyLab/cache.c:121-132 | a full cache stamped 5, 1, 7 receiving one byte faults as written, while the corrected walk evicts the middle element |
| ProxyUrl.ParseRequestUrl | Project/ProxyLab/proxy.c:178-205 | without "http" the outputs are untouched; a fault exactly when no '/' precedes the last character; otherwise the host has no '/' or ':' and the uri starts with '/' |
| ProxyUrl.SplitPort | Project/ProxyLab/proxy.c:197-203 | the uri is untouched, and a host without '/' comes out without '/' or ':' |
| ProxyUrl.ParseWithPort | Project/ProxyLab/proxy.c:183-203 | `http://host:port/path` splits into host, the decimal port and `/path` |
| ProxyUrl.ParseDefaultPort | Project/ProxyLab/proxy.c:183-198 | `http://host/path` gets port 80 |
| ProxyUrl.ParseSlashFree | Project/ProxyLab/proxy.c:183-190 | the text between `http://` and the next '/' is what the port step splits |
| ProxyUrl.ParseNoPath | Project/ProxyLab/proxy.c:191-198 | `http://host` asks for `/` on port 80 |
| ProxyUrl.CheckObjectSize | Project/ProxyLab/proxy.c:285-301 | 1 with nothing changed exactly when the chunk would exceed `MAX_OBJECT_SIZE`; otherwise 0, the chunk appended at the old size, everything else kept, and the size advanced |
| CStr.StrChr | Project/ProxyLab/proxy.c:184-186 | the first position holding the character, or NULL exactly when there is none |
| CStr.StrStr | Project/ProxyLab/proxy.c:183 | the first position where the pattern occurs, or NULL exactly when it occurs nowhere |
| CStr.Contains | Project/ProxyLab/proxy.c:183 | `strstr` answers non-NULL exactly when the pattern occurs somewhere in the string |
| CStr.Span | Project/TshLab/tsh.c:355 | the first position not in the accepted set |
| CStr.CSpan | Project/TshLab/tsh.c:384 | the first position in the rejected set |
| CStr.ValueDecimal | Project/ProxyLab/proxy.c:202 | reading back a decimal rendering gives the number |
| CStr.AtoiDecimal | Project/ProxyLab/proxy.c:202 | `atoi` of a decimal rendering, followed by a non-digit or the end, gives the number |
| CStr.Atoi | Project/ProxyLab/proxy.c:202 | as also used at tsh.c:483 and 512: when the first character after leading white space is neither a sign nor a digit the value is 0, and a negative value needs a '-' there |
| TshParse.Record | Project/TshLab/tsh.c:398-412 | a token becomes an argument, the input file or the output file as pending; with both pending the line is ambiguous |
| TshParse.ScanFrom | Project/TshLab/tsh.c:353-418 | the loop only appends arguments, never more than `MAXARGS - 1`, and never overwrites a file already set |
| TshParse.ScanAt | Project/TshLab/tsh.c:359-417 | one pass of the loop body keeps those same bounds |
| TshParse.TokenAt | Project/TshLab/tsh.c:378-392 | a token ends inside the line, and is missing exactly for an opening quote with no partner |
| TshParse.ParseLine | Project/TshLab/tsh.c:324-449 | NULL gives -1; a fault exactly when the line has at least `MAXLINE` characters; a parsed line has at least one and at most `MAXARGS - 1` arguments, its builtin chosen by the first argument, and the background flag exactly when the dropped last argument opened with '&' |
| TshParse.Finish | Project/TshLab/tsh.c:420-448 | -1 exactly when a redirection is still pending; a blank line exactly when no argument was read |
| TshParse.BuiltinOf | Project/TshLab/tsh.c:431-441 | a builtin exactly when the whole first argument is its name, and no builtin when it is none of the four names |
| TshParse.BuiltinNameRoundTrip | Project/TshLab/tsh.c:431-441 | each of the four builtins is recognised from its name |
| TshParse.ScanJoin | Project/TshLab/tsh.c:353-418 | blank-separated plain words all become arguments, in order |
| TshParse.WordsParse | Project/TshLab/tsh.c:353-448 | a line of plain words parses to those words; a last word opening with '&' is dropped and sets the background flag |
| TshParse.ScanRedirect | Project/TshLab/tsh.c:359-376 | a `<` or `>` makes its redirection pending, or gives -1 when that file is set already |
| TshParse.ScanRedirectFile | Project/TshLab/tsh.c:359-376 | with the state switch at lines 398-407: `< name` or `> name` sets that file to the name |
| TshParse.RedirectParse | Project/TshLab/tsh.c:359-407 | `words < in > out` sets both files and keeps the words as arguments |
| TshParse.QuotedParse | Project/TshLab/tsh.c:378-395 | text between matching quotes is one argument without the quotes |
| TshParse.UnmatchedQuote | Project/TshLab/tsh.c:387-392 | an opening quote with no partner gives -1 |
| TshParse.MissingFileName | Project/TshLab/tsh.c:420-424 | a redirection with no file name gives -1 |
| TshParse.RepeatedInput | Project/TshLab/tsh.c:359-363 | a second `<` once the input file is set gives -1, whatever follows |
| TshParse.BothPending | Project/TshLab/tsh.c:408-410 | a word read while both redirections are pending gives -1 |
| TshJobs.First | Project/TshLab/tsh.c:729-745 | the scan `addjob` makes here and the lookups at lines 773-818 make: the first slot from a position on that matches, or none exactly when none does |
| TshJobs.InitJobs | Project/TshLab/tsh.c:691-706 | every slot is cleared, `nextjid` is kept, and the table invariant holds |
| TshJobs.MaxJid | Project/TshLab/tsh.c:709-718 | at least 0 and every jid, and either 0 or some slot's jid |
| TshJobs.AddJobAsWritten | Project/TshLab/tsh.c:721-748 | 1 exactly for a positive pid with a free slot, and then the first free slot is filled; 0 changes nothing |
| TshJobs.AddJob | Project/TshLab/tsh.c:721-748 | as above, with the new jid above every jid in use |
| TshJobs.DeleteJob | Project/TshLab/tsh.c:751-767 | 1 exactly for a positive pid in the table; then only the first slot with it is cleared and `nextjid` is one past the largest jid left; 0 changes nothing |
| TshJobs.FgPid | Project/TshLab/tsh.c:770-778 | the pid of the first foreground job, or 0 when there is none |
| TshJobs.GetJobPid | Project/TshLab/tsh.c:781-791 | the first slot holding the pid; NULL exactly for a pid below 1 or one not present |
| TshJobs.GetJobJid | Project/TshLab/tsh.c:794-804 | the first slot holding the jid; NULL exactly for a jid below 1 or one not present |
| TshJobs.Pid2Jid | Project/TshLab/tsh.c:807-819 | the jid of the first slot holding the pid, or 0 |
| TshJobs.FgBg | Project/TshLab/tsh.c:473-529 | without a second argument nothing happens; `%n` naming no job faults; only a stopped job changes state, to FG for `fg` and BG for `bg`, and nothing else changes |
| TshJobs.AddJobInv | Project/TshLab/tsh.c:721-748 | the corrected `addjob` keeps the table's shape, `nextjid` above every jid, and distinct jids |
| TshJobs.DeleteJobInv | Project/TshLab/tsh.c:751-767 | `deletejob` keeps that invariant |
| TshJobs.LookupAfterAdd | Project/TshLab/tsh.c:721-748 | with `getjobpid` and `getjobjid` (lines 781-804): after adding a new pid, both lookups find the new job, under the old `nextjid` |
| TshJobs.AddThenDelete | Project/TshLab/tsh.c:721-767 | adding a new pid and deleting it restores the slots, with `nextjid` one past the largest jid |
| TshJobs.DeleteForgets | Project/TshLab/tsh.c:751-767 | with `getjobpid` (lines 781-791): after deleting a pid held by one slot only, it is no longer found |
| TshJobs.StoppedToFg | Project/TshLab/tsh.c:481-492 | `fg %n` on a stopped job moves it to the foreground, and `fgpid` then answers its pid |
| TshJobs.StoppedToBg | Project/TshLab/tsh.c:510-521 | `bg %n` on a stopped job moves it to the background and leaves the foreground alone |
| TshJobs.PercentJid | Project/TshLab/tsh.c:481-483 | `%n` reads back as jid n |
| TshJobs.WrapReusesJid | Project/TshLab/tsh.c:733-735 | with `nextjid` at 16, jid 1 live and two free slots, two adds as written leave two slots with jid 1 |
| TshJobs.AddedAt | Project/TshLab/tsh.c:729-745 | `addjob` as written fills the first free slot, and no other slot changes |

## Left out

- I/O is not modelled: printing, `dbg_printf`, verbose output, the csim
  summary and `getopt`, reading trace files, and the proxy's sockets,
  threads and rio reads. Those are external effects.
- The proxy cache's semaphores and `readcnt` are not modelled. The model is
  sequential, and the lookup's stamp update is an ordinary state change.
- `mem_sbrk`, `mem_heap_lo` and `mem_heap_hi` come from memlib, which is not
  part of this model. The heap is an append-only word array, and the `limit`
  field decides when growth fails. The base `0x800000000` is abstract, and
  double-word aligned. The model assumes `limit` is below 2^30 words
  (`MmHeap.Sized`, required by `MmInit.Init` and `MmInit.Prologue`). The
  source has no such check. The bound keeps every block size inside the
  30-bit size field and every link inside its 32-bit offset, so a heap of
  4 GiB or more is not modelled.
- `mm_checkheap` is not modelled as an executable check. As written, its loop
  tests `bp` and never iterates. Its per-block checks are proved as
  properties instead. `check_header_footer` and the prologue and epilogue
  checks are `MmHeap.Layout`. `check_seg_list` is the list and class part of
  `MmLists.Inv`. `check_in_heap` is `MmHeap.LayoutBounds` with
  `MmAlloc.Neighbours`: a block and its two neighbours lie in the heap.
  `check_coalescing` is `MmAdjacent.NoAdjacentFree`. `checkblock_align` is
  `MmHeap.PayloadAligned`. The loop hands `checkblock_align` the header
  pointer, which is one word before the payload and never double-word
  aligned, so the model states the alignment of the payload, which is what
  the allocator returns.
- `check_prev_next_ptr` is not modelled. It compares a list neighbour with a
  physical neighbour, which is not an invariant of the allocator.
- Payload bytes are not modelled in the allocator. This covers the copy of
  `realloc`, which counts the tag words, and the fact that `calloc` does not
  zero memory.
- Csim.Replay: stamps are unbounded naturals. The source's `int` stamp and
  the unsigned hit, miss and eviction counters would wrap after 2^31 or 2^32
  accesses.
- Csim.Load: requires an address below 2^31 and s + b at most 31. The
  source passes the `unsigned long` address into an `int`, and larger
  values reach the sign bit of its shifts, which is not modelled.
- The proxy's `unsigned int` stamps and counter, and `size_t` totals, are
  unbounded naturals, so their wrap-around is not modelled.
- `strcpy` and `strcat` into the proxy's fixed buffers (`MAXLINE` from
  csapp.h) are not bounds-checked. csapp.h is not part of this model.
- CStr.Atoi: overflow of `atoi` is not modelled; the decimal value is
  unbounded.
- CStr.StrChr: strings are modelled without their terminating NUL, and a
  '\0' inside one is an ordinary character. In C, `strchr`, `strstr`,
  `strspn`, `strcspn` and `strlen` stop at the first NUL, so for
  `ParseRequestUrl` and `ParseLine` the model's string is the text up to it.
- TshJobs.AddJob: requires a command line shorter than `MAXLINE`. `eval`
  passes an `fgets` line, so the `strcpy` into the slot never overflows.
- Shell process control is not modelled: `eval`, `fork`/`exec`, signal masks
  and handlers, `waitfg_job`, `redirection`, `listjobs`, `kill` with
  `SIGCONT`, and the `quit` and `jobs` builtins. These are processes, signals
  and file descriptors.
- TshJobs.FgBg: the `SIGCONT` sent to the process group and the `bg` status
  line are left out. A `%n` naming no job, and `bg` without '%' (which
  prints an uninitialised `target_jid`), are `Fault` rather than excluded
  by a precondition.
- trans.c's `registerFunctions` is not modelled, and neither are cache-miss
  counts. They are driver glue and a performance property.

## Findings

| source | as written | input that shows it | evidently intended | confidence | as-written member | corrected member |
|---|---|---|---|---|---|---|
| Project/MallocLab/mm.c:697-713 | `realloc` checks the `malloc` reply only against NULL, then copies into it | growing a block when the heap cannot grow: `malloc` answers `(void *)-1` and `memcpy` writes through it | report the failure and leave the old block untouched | high, not executed | MmAlloc.GrowAsWritten | MmAlloc.Grow |
| Project/MallocLab/mm.c:697, 715-718 | `realloc` calls `malloc` before deciding to shrink in place | `realloc(p, 1)` on a 16-byte block: a new block is allocated, `p` is returned, and the new block is never freed | call `malloc` only when the block must grow, as the comment at mm.c:664-668 says | high, not executed | MmAlloc.ReallocAsWritten | MmAlloc.Realloc |
| Project/MallocLab/mm.c:715-718 | the in-place branch of `realloc` calls `place`, which lists the cut-off rest without `coalesce` | an allocated block followed by a free block, cut so that more than a minimum block remains: the rest and the free block after it are neighbours, both free | release the rest as `free` does, merging it with a free block after it | high, not executed | MmAlloc.ShrinkAsWritten | MmAlloc.Shrink |
| Project/MallocLab/mm.c:735 | `malloc(nmemb * size)` with a wrapping `size_t` product | `calloc(2^62 + 1, 4)` asks `malloc` for 4 bytes | NULL on overflow, as the C library's `calloc` promises | high, not executed | MmAlloc.CallocWraps | MmAlloc.Calloc |
| Project/MallocLab/mm.c:581-583 | `size + 15` in `size_t` wraps for huge requests | `malloc(SIZE_MAX)` computes a 2-word block | round the true request up, so the block holds the request | medium, not executed | MmCodec.AdjustedWordsWraps | MmAlloc.Malloc |
| Project/CacheLab/csim.c:117-123 | the tag is masked with `0x7fffffff >> (31 - s - b)` and keeps only s + b bits | s = b = 1, one line per set: load 0, then load 16; the second load hits | keep every bit above the set bits | high, not executed | Csim.AliasedReplay | Csim.SameLineIffSameBlock |
| Project/ProxyLab/cache.c:121-132 | the inner eviction walk reads `cache_ptr->next` with no NULL check | a full cache stamped 5, 1, 7 (sizes 1048900, 50, 50) receiving 1 byte: the walk unlinks the middle element, steps to the tail, and reads through its NULL `next` | stop the walk at the tail | high, not executed | ProxyCache.MiddleVictimFault | ProxyCache.Eviction |
| Project/TshLab/tsh.c:733-735 | `nextjid` wraps to 1 after `MAXJOBS` with no check that jid 1 is free | 15 jobs added (jids 1-15), the jobs with jids 2 and 3 deleted (`nextjid` stays 16), two more added: the second gets jid 1 while job 1 is live | jids stay distinct; the model drops the wrap, since `deletejob` already resets `nextjid` | medium, not executed | TshJobs.WrapReusesJid | TshJobs.AddJobInv |
