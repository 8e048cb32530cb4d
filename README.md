# A verified model of the mm.c segregated-free-list allocator

`assn3-malloc/assn/mm.c` is a boundary-tag heap allocator. The memory
system hands it a heap that only grows (`mem_sbrk`). It divides that heap
into blocks, each with a header word and a footer word that hold the
block's size and an allocated bit. Free blocks sit on one of twenty
doubly-linked free lists, chosen by size class (`get_flist_index`). Each
free block keeps the links in its first two payload words.

- `mm_malloc` searches the lists first fit, scanning upward from the
  request's own class (`find_fit`, `find_block`). It splits a block that is
  too large (`handle_split_block`) and marks the block allocated (`place`).
- When no list has a fit, it grows the heap by what `get_extend_size` asks
  for (`extend_heap`), merges the new block with a free last block, and
  places the request there.
- `mm_free` clears the allocated bit. `coalesce` then merges the block with
  its free neighbours (the four cases) and lists the result.

## How the model is built

- **Heap and list heads.** The heap is a sequence of 8-byte words
  (`MM.Allocator.heap`). A block is named by the word index of its first
  payload word. The C address macros become index arithmetic in module
  `Heap`, e.g. the header is at `bp - 1` and the footer at
  `bp + size / 8 - 2`. Index 0 is the alignment pad, and 0 also stands for
  NULL. `flist` is an `array<nat>` of the twenty list heads, and
  `split_flag` is a field.
- **Routines.** Every routine of `mm.c` that changes the heap or the list
  heads is a method of `MM.Allocator`. It writes the heap words and list
  heads in the order the C code does. The two that only compute are
  modelled apart from the class: `get_flist_index` is the function
  `Layout.FlistIndex`, with the C loop itself in the method
  `Layout.GetFlistIndex`, proved to return the same class; and
  `get_extend_size` is the function `Policy.ExtendSize`.
- **Ghost state.** Two ghost fields give the abstract picture:
  - `blocks`: the payload indices of the blocks between prologue and
    epilogue, in address order;
  - `lists`: the contents of each free list, head first.
- **The heap invariant.** `mm_check` is a stub in the source. Its place is
  taken by `Invariant.HeapInv`, which says:
  - the blocks tile the heap from the prologue to the epilogue, and each
    block's footer equals its header;
  - every size is a multiple of 16 and at least 32 bytes;
  - no two neighbouring blocks are both free;
  - every free block is on exactly the list of its size class, and every
    listed block is such a free block;
  - the prev/next words in the heap and the heads in `flist` spell out
    exactly the abstract lists.
- **Exempt blocks.** While a routine runs, some blocks may be free but off
  the lists. These are the `ex` parameter of `HeapInv`. Between calls the
  invariant holds with no exemptions (`MM.Allocator.Valid`).
- **The carried invariant.** The methods carry `HeapInv` as
  `Invariant.Sealed(n, …)`: the same invariant behind a depth counter `n`
  (`MM.Allocator.depth + 2`) that stops the verifier from unfolding it in
  every proof, plus a set `lax` of blocks, the one being merged or cut,
  that are excused from the size and pairing rules for the moment. `Invariant.Unseal` and `Invariant.Seal` open and close it. The
  depth, `lax`, and the lemmas that only project part of another lemma's
  conclusion (`Coalescing.NextRow`, `PrevRow`, `BothRow`, `BothDone`) are
  verification plumbing, not part of the allocator.
- **Frame.** Module `Frame` states what the allocator leaves alone:
  `Frame.KeepsAllocated(h, blocks, h2, blocks2)` says that every block
  allocated in `h` is still a block in `blocks2` and has the same words in
  `h2`, header, payload and footer. Every operation ensures it (`mm_free`
  for every block but the one freed), because every write of `mm.c` lands
  in the tags or link words of a free block, or past the old heap.
- **Specifications.** Each method returns to the invariant. Its contract
  ties the new state to functions of the old state: `FreeList.Push` and
  `FreeList.Unlink` for the link words, `Merge.Drop` for a list with one
  block removed, `Transitions.SplitOutcome` and `Coalescing.Coalesced` for
  whole operations, and `Policy.FitClass` / `Policy.FirstFit` for the
  first-fit search.

The memory system is a fixed capacity in words. `mem_sbrk` grows the heap
by the requested number of words (their contents unspecified by the
contract) or returns -1
when the heap would pass the capacity.

Where the comments and the code disagree, the model follows the code:

- The header comment says blocks are "never coalesced or reused". It is
  stale: the code coalesces and reuses blocks.
- The comment on `get_flist_index` speaks of sizes in words. The code
  compares byte sizes against `8 << i`, and so does `Layout.FlistIndex`.
- `coalesce` lists its result itself (`mm.c:341`). So `mm_free` and
  `extend_heap` leave the merged block at the head of its list
  (`Coalescing.Coalesced`).
- `mm_malloc` calls `handle_split_block` on the block `extend_heap` returns
  only under the guard `block_size >= asize` (`mm.c:494`). Had the guard
  been false, the block would have been placed while still on a free list.
  The model proves the guard always holds: `Growth.GrowthMerged` gives the
  block at least `asize` bytes, and the else branch of
  `MM.Allocator.SplitAndPlace` is unreachable.
- `get_extend_size` computes `asize * 2` in `size_t`. This wraps for an
  `asize` of 2^63 bytes or more, which `mm_malloc` reaches without any
  wrap in its own adjustment (a request of 2^63 bytes adjusts to
  2^63 + 16). The wrap does not change the result: `asize * 2` is only
  compared with `CHUNKSIZE`, and for such an `asize` both the wrapped and
  the true comparison give `MAX(CHUNKSIZE, asize)` = `asize`.

## Model

| member | source | states |
|---|---|---|
| Layout.Pack | assn3-malloc/assn/mm.c:60 | PACK of an even size and a bit below 2 is their sum |
| Layout.PackRoundTrip | assn3-malloc/assn/mm.c:60-68 | GET_SIZE and GET_ALLOC recover the size and allocated bit that PACK stored, for a 16-aligned size and a bit in {0,1}; the low four bits are at most the allocated bit |
| Layout.FlistIndex | assn3-malloc/assn/mm.c:116-131 | the size class is always below FREE_LIST_SIZE |
| Layout.FlistIndexBounds | assn3-malloc/assn/mm.c:116-131 | class k < 19 means the size is below `8 << k`; class k > 0 means it is at least `8 << (k-1)` |
| Layout.FlistIndexExact | assn3-malloc/assn/mm.c:116-131 | both directions: k is the class of a size exactly when the bounds of class k bracket it |
| Layout.FlistIndexMonotone | assn3-malloc/assn/mm.c:116-131 | a larger size never falls in a smaller class |
| Layout.FlistIndexLarge | assn3-malloc/assn/mm.c:113-131 | every size of at least `8 << 18` falls in the last class, 19 |
| Layout.GetFlistIndex | assn3-malloc/assn/mm.c:116-131 | the doubling loop over the class bounds returns exactly the class FlistIndex defines |
| Layout.AdjustSizeSpec | assn3-malloc/assn/mm.c:461-465 | the adjusted size is a multiple of 16, holds the payload plus header and footer, is at least 32, and is the least such multiple |
| Layout.AdjustSizeAsWrittenAgrees | assn3-malloc/assn/mm.c:461-465 | below the 64-bit wrap, the size_t computation as written equals the adjustment |
| Layout.AdjustSizeAsWrittenWraps | assn3-malloc/assn/mm.c:465 | a request of SIZE_MAX bytes is adjusted to 16 bytes, below the minimum block and below the request |
| Heap.Neighbours | assn3-malloc/assn/mm.c:71-76 | under the tiling, NEXT_BLKP of block i is block i+1 (the epilogue after the last), PREV_BLKP is block i-1 (the prologue before the first), FTRP of block i-1 is the word before block i's header, and the allocated bits read there are the neighbours' |
| Heap.SetTags | assn3-malloc/assn/mm.c:408-409 | writing the header and then FTRP, which re-reads that header, puts size and bit at bp-1 and bp+size/8-2 and changes no other word |
| FreeList.ChainPush | assn3-malloc/assn/mm.c:147-161 | pushing a block that is on no list onto the front of a linked list gives a linked list headed by that block, followed by the old contents |
| FreeList.ChainCut | assn3-malloc/assn/mm.c:177-191 | rewiring the predecessor's next and the successor's prev around entry j leaves a linked list of the other entries in order, with the head moved on when j was first |
| FreeList.LinkedAfterPush | assn3-malloc/assn/mm.c:139-164 | after insert's writes, the list of class k is `[bp] + old`, its head is bp, and every other list keeps its contents and links |
| FreeList.LinkedAfterUnlink | assn3-malloc/assn/mm.c:171-192 | after remove's writes, the list of class k loses exactly entry j and keeps its order; the head changes only when j was first; every other list is unchanged |
| FreeList.OtherAfterUnlink | assn3-malloc/assn/mm.c:177-191 | unlinking from one list leaves every other list's chain intact |
| FreeList.OtherAfterPush | assn3-malloc/assn/mm.c:147-161 | pushing onto one list leaves every other list's chain intact |
| FreeList.EraseAt | assn3-malloc/assn/mm.c:171-192 | removing a block by value from a list on which it first occurs at j is removing entry j, order kept |
| FreeList.EraseMultiset | assn3-malloc/assn/mm.c:171-192 | removing a block from a list takes one occurrence of it out of the list's multiset, and nothing when it is not there |
| FreeList.ErasePush | assn3-malloc/assn/mm.c:139-192 | removing the block just pushed gives back the old list |
| FreeList.SpreadErase | assn3-malloc/assn/mm.c:171-192 | on a list without duplicates, removing entry j's block by value removes exactly entry j |
| Merge.Drop | assn3-malloc/assn/mm.c:171-192 | dropping a block from all lists keeps their number and removes it from each one |
| Merge.RemoveStep | assn3-malloc/assn/mm.c:171-192 | remove_free_block's writes keep every boundary tag and take the block off its list; the invariant holds with the block exempt |
| Invariant.HeapInv | assn3-malloc/assn/mm.c:593-596 | what a real mm_check would check: the blocks tile the heap from prologue to epilogue with footers equal to headers; sizes are 16-aligned and at least 32; no two neighbours are free; every free block outside the exempt set is on exactly the list of its class, and every listed block is one; the link words and heads spell out exactly the abstract lists |
| Policy.FirstFit | assn3-malloc/assn/mm.c:203-218 | the first-fit position is within the list, and a position inside the list holds a block of at least asize bytes |
| Policy.FirstFitSkips | assn3-malloc/assn/mm.c:208-216 | every block before the first-fit position is smaller than asize |
| Policy.FitClass | assn3-malloc/assn/mm.c:382-398 | the class found is at or above the starting class, and a class below 20 has a fit in its list |
| Policy.FitClassSkips | assn3-malloc/assn/mm.c:389-395 | every class scanned before the one found has no block of asize bytes |
| Policy.NoFitAllSmall | assn3-malloc/assn/mm.c:382-398 | when find_fit finds nothing, every listed free block of the heap is smaller than asize, including those in classes below the request's own |
| Policy.FitFound | assn3-malloc/assn/mm.c:382-398 | a block find_fit finds is a free, listed, unexempt block of the heap with at least asize bytes, in the class it was found in |
| Policy.ShapeInHeap | assn3-malloc/assn/mm.c:203-218 | under the invariant, every listed block's header and link words are inside the heap |
| Policy.LastBlock | assn3-malloc/assn/mm.c:521 | the block before the epilogue is the last block of the tiling, or the prologue when there is none |
| Policy.SizeMinus | assn3-malloc/assn/mm.c:523 | size_t subtraction: a value below 2^64 that adds back to the minuend modulo 2^64 |
| Policy.ExtendSize | assn3-malloc/assn/mm.c:509-526 | with an allocated last block, the request itself when it is small and otherwise at least 144 bytes; with a free last block no larger than the request, exactly the part of the request it lacks |
| Steps.PlaceStep | assn3-malloc/assn/mm.c:404-411 | marking an exempt block allocated in header and footer restores the invariant without the exemption |
| Steps.FreeStep | assn3-malloc/assn/mm.c:423-430 | clearing an allocated block's bit in header and footer leaves the invariant with that one block exempt |
| Steps.SplitStep | assn3-malloc/assn/mm.c:248-256 | the four tag writes of a split give a tiling where the block is cut into two of `asize` and the rest |
| Steps.SplitWordsForm | assn3-malloc/assn/mm.c:248-254 | the split writes exactly four words, in order strictly inside the old block: bp's header, its new footer, the remainder's header right after it and the old footer; the remainder ends where the old block ended |
| Steps.MergeStep | assn3-malloc/assn/mm.c:315-340 | writing the summed size into the first header and the last footer of a run of exempt free blocks merges them into one tiled block |
| Steps.ExtendStep | assn3-malloc/assn/mm.c:363-366 | the grown heap with the new free block and new epilogue keeps the invariant with the new block exempt |
| Transitions.InsertSealed | assn3-malloc/assn/mm.c:139-164 | pushing an exempt free block onto the list of its class restores it to the invariant and keeps every block's tags |
| Transitions.RemoveSealed | assn3-malloc/assn/mm.c:171-192 | unlinking a listed block keeps the invariant with it exempt; the head changes only when it was first |
| Transitions.SplitSealed | assn3-malloc/assn/mm.c:248-256 | the split's tag writes keep the invariant and give a block of asize bytes and a free remainder of the rest, placed right after it |
| Transitions.PlaceSealed | assn3-malloc/assn/mm.c:404-411 | place marks the block allocated, keeps its size and restores the invariant |
| Transitions.FreeSealed | assn3-malloc/assn/mm.c:423-430 | mm_free's tag writes make the block free at its old size; the invariant holds with it exempt |
| Transitions.ExtendSealed | assn3-malloc/assn/mm.c:363-366 | extend_heap's writes give a free block over the new words, ending at the new epilogue, and keep the last old block |
| Transitions.MergeSealed | assn3-malloc/assn/mm.c:315-340 | a merge of 1 to 3 neighbouring free blocks gives one free block of their summed size, ending where the last ended, and keeps the invariant |
| Frame.PushKeeps | assn3-malloc/assn/mm.c:147-161 | insert writes only the link words of the pushed block and of the old head, both free: every allocated block keeps every word |
| Frame.UnlinkKeeps | assn3-malloc/assn/mm.c:177-191 | remove writes only the link words of the block's list neighbours, both free: every allocated block keeps every word |
| Frame.SplitKeeps | assn3-malloc/assn/mm.c:248-256 | the split's four tag writes fall inside the free block it cuts: every allocated block keeps every word and is still a block of the new tiling |
| Frame.PlaceKeeps | assn3-malloc/assn/mm.c:404-411 | place's two writes change an allocated block not at all and a free one only in its tags: every allocated block keeps every word |
| Frame.FreedKeeps | assn3-malloc/assn/mm.c:423-430 | mm_free's two writes are the freed block's own tags: every other allocated block keeps every word |
| Frame.RunTagsKeep | assn3-malloc/assn/mm.c:315-340 | coalesce's header and footer writes over a run of one to three free blocks touch no allocated block, and each allocated block is still a block once the run is one |
| Frame.GrowKeeps | assn3-malloc/assn/mm.c:363-366 | extend_heap writes only the old epilogue and words past the old heap: every allocated block keeps every word, and the blocks gain the new one |
| Frame.KeepsTrans | assn3-malloc/assn/mm.c:300-343 | keeping every allocated block composes over the steps of a routine, also when one block (the one mm_free frees) is excused |
| Frame.NotAllocated | assn3-malloc/assn/mm.c:486-490 | a free block of the heap, or the old break where new words begin, is not an allocated block |
| Coalescing.CoalesceView | assn3-malloc/assn/mm.c:303-307 | PREV_BLKP and NEXT_BLKP of the block are its neighbours in the tiling, and the allocated bits read in the footer and header tell whether those are free |
| Coalescing.MergeAlone | assn3-malloc/assn/mm.c:311-313 | case 1: a block between allocated neighbours is its own merged block |
| Coalescing.MergeNext | assn3-malloc/assn/mm.c:315-322 | case 2: the block and its free successor become one block of the summed size at bp |
| Coalescing.MergePrev | assn3-malloc/assn/mm.c:324-331 | case 3: the predecessor and the block become one block of the summed size at the predecessor |
| Coalescing.PrevWrites | assn3-malloc/assn/mm.c:328-330 | case 3's PREV_BLKP(bp) still reads the predecessor after the footer write, and the two writes are the merged block's header and footer |
| Coalescing.MergeBoth | assn3-malloc/assn/mm.c:333-340 | case 4: predecessor, block and successor become one block of the summed size at the predecessor |
| Coalescing.BothWrites | assn3-malloc/assn/mm.c:336-339 | case 4's FTRP(NEXT_BLKP(bp)) still finds the successor's footer after the header write |
| Growth.ExtendBytes | assn3-malloc/assn/mm.c:356-357 | the byte count is 16-aligned and at least the words asked for, less than one double word more |
| Growth.ExtendBytesExact | assn3-malloc/assn/mm.c:356-357 | a 16-aligned request is grown by exactly that many bytes |
| Growth.SplitKeepsPlace | assn3-malloc/assn/mm.c:225-262 | after handle_split_block the block stays in place with at least asize bytes: exactly asize when cut, its old size otherwise |
| Growth.FitView | assn3-malloc/assn/mm.c:382-398 | find_fit returns NULL exactly when no class has a fit, and then changes nothing; otherwise its block has at least asize bytes; the block found was free, not one the client holds |
| Growth.ExtendSizeFits | assn3-malloc/assn/mm.c:509-526 | with no fit, get_extend_size asks for a positive multiple of 16; with a free last block that is exactly the part of the request the block lacks, else at least the request |
| Growth.GrowthMerged | assn3-malloc/assn/mm.c:486-494 | after extend_heap and coalesce, the block is free, heads its list and has at least asize bytes; exactly asize when it grew the free last block |
| Growth.LastFreeSmall | assn3-malloc/assn/mm.c:520-524 | with no fit on the lists, a free last block is smaller than the request, so the size_t subtraction does not wrap |
| MM.Allocator.constructor | assn3-malloc/assn/mm.c:97-100 | an empty heap, a fresh table of 20 heads and split_flag set |
| MM.Allocator.MemSbrk | assn3-malloc/assn/mm.c:272 | the heap grows by the requested words and the old break is returned, or -1 exactly when the capacity would be passed, with nothing changed |
| MM.Allocator.Init | assn3-malloc/assn/mm.c:269-287 | on success the heap is pad, prologue header and footer, epilogue; every head is NULL and the invariant holds; -1 only when the memory system has no room; on -1 nothing changes, and split_flag is never touched |
| MM.Allocator.InsertFreeBlock | assn3-malloc/assn/mm.c:139-164 | the block heads the list of its class, prev NULL and next the old head; the list becomes `[bp] + old`, every other list and head is unchanged; every allocated block keeps all its words |
| MM.Allocator.RemoveFreeBlock | assn3-malloc/assn/mm.c:171-192 | the heap words are Unlink of the block's neighbours; its list loses exactly the block; the head moves only when it was first; every allocated block keeps all its words |
| MM.Allocator.SplitTags | assn3-malloc/assn/mm.c:248-256 | the four PUTs as statements in the C order, with FTRP and NEXT_BLKP reading the header just written, leave exactly SplitWords of the old heap |
| MM.Allocator.SplitFreeBlock | assn3-malloc/assn/mm.c:248-259 | the block gets asize bytes and the remainder, of the rest, is a free block right after it at the head of its class; the sizes sum to the original; every allocated block keeps all its words |
| MM.Allocator.HandleSplitBlock | assn3-malloc/assn/mm.c:225-262 | the block is taken off its list; with split_flag clear or too little left it keeps its size; otherwise it is cut and the remainder listed; every allocated block keeps all its words |
| MM.Allocator.FindBlock | assn3-malloc/assn/mm.c:203-218 | the walk of one list returns the first block of at least asize bytes, passed through handle_split_block, or NULL with nothing changed when there is none; every allocated block keeps all its words |
| MM.Allocator.FindFit | assn3-malloc/assn/mm.c:382-398 | the scan from the request's class returns the first fit of the first class that has one, split as handle_split_block does, or NULL with nothing changed; every allocated block keeps all its words |
| MM.Allocator.Place | assn3-malloc/assn/mm.c:404-411 | header and footer are rewritten with the allocated bit at the block's own size; the invariant is restored; every allocated block keeps all its words |
| MM.Allocator.Coalesce | assn3-malloc/assn/mm.c:300-343 | the block and its free neighbours become one free block of their summed size, the neighbours are off the lists, the result heads its class, and the invariant holds; every allocated block keeps all its words |
| MM.Allocator.ListMerged | assn3-malloc/assn/mm.c:341-342 | the merged block is pushed onto its class, completing Coalesced, with every allocated block's words kept |
| MM.Allocator.CoalesceNext | assn3-malloc/assn/mm.c:315-322 | case 2: the successor is unlinked and merged into bp; every allocated block keeps all its words |
| MM.Allocator.PutNextTags | assn3-malloc/assn/mm.c:319-320 | writing the header and then FTRP with the summed size gives SetTags of the merged block |
| MM.Allocator.CoalescePrev | assn3-malloc/assn/mm.c:324-331 | case 3: the predecessor is unlinked and bp is merged into it; every allocated block keeps all its words |
| MM.Allocator.PutPrevTags | assn3-malloc/assn/mm.c:328-329 | the footer is written before PREV_BLKP(bp) is read, and PREV_BLKP still finds the predecessor |
| MM.Allocator.CoalesceBoth | assn3-malloc/assn/mm.c:333-340 | case 4: both neighbours are unlinked and all three merge at the predecessor; every allocated block keeps all its words |
| MM.Allocator.PutBothTags | assn3-malloc/assn/mm.c:336-338 | the merged header and the successor's footer get the summed size |
| MM.Allocator.PutExtendTags | assn3-malloc/assn/mm.c:363-366 | a free block over the new words and a new epilogue after it; the last old block is untouched; every allocated block keeps all its words |
| MM.Allocator.ExtendHeap | assn3-malloc/assn/mm.c:351-372 | NULL with nothing changed exactly when the memory system cannot grow by the even word count; otherwise the new free block is coalesced and listed and the invariant holds; every allocated block keeps all its words |
| MM.Allocator.ExtendFresh | assn3-malloc/assn/mm.c:363-371 | after a successful sbrk: the new words hold one free block ending at the new epilogue, which is coalesced and listed; the invariant holds and every allocated block keeps all its words |
| MM.Allocator.Free | assn3-malloc/assn/mm.c:418-436 | NULL changes nothing; otherwise the block's bit is cleared, it is coalesced with its free neighbours and the result is listed; every other allocated block keeps all its words |
| MM.Allocator.Malloc | assn3-malloc/assn/mm.c:451-506 | NULL with nothing changed exactly for a zero request, a request whose adjustment overflows, or no fit and no room to grow; otherwise an allocated block in the tiling of at least the adjusted size, with the invariant kept; every allocated block keeps all its words; the block returned was free or beyond the old heap, never a block the client already held |
| MM.Allocator.ExtendAndPlace | assn3-malloc/assn/mm.c:486-506 | with no fit, NULL with nothing changed exactly when the heap cannot grow by get_extend_size; otherwise an allocated block of at least asize bytes; every allocated block keeps all its words; the block returned was the free last block or begins at the old break, never an allocated block |
| MM.Allocator.ExtendForFit | assn3-malloc/assn/mm.c:486-490 | with no fit, NULL with nothing changed exactly when the heap cannot grow by get_extend_size; otherwise a free block of at least asize bytes heading its list, that was the free last block or begins at the old break, and every allocated block keeps all its words |
| MM.Allocator.SplitAndPlace | assn3-malloc/assn/mm.c:491-498 | the guarded split and place of the grown block: allocated, in place, at asize bytes when cut and its old size otherwise; every allocated block keeps all its words |

## Left out

- `mm_realloc` (`mm.c:532-586`) is not modelled. Its copy path prints, multiplies by the float 1.5, and reads the old payload after freeing it. Its two early dispatches only call `mm_free` and `mm_malloc`, which are modelled.
- `print_flist` (`mm.c:598-615`) is not modelled. All of its output is commented out, so it has no effect.
- `team` and every `printf` / `fflush` are metadata and I/O.
- `mm_check` (`mm.c:593-596`) returns 1. The model does not copy the stub; `Invariant.HeapInv` states what a real check would check.
- `mem_sbrk` and `mem_heap_hi` are foreign calls from memlib, and memlib is not part of this model. `mem_sbrk` is a capacity in words (`MM.Allocator.MemSbrk`). `mem_heap_hi() + 1` is the heap's length.
- MM.Allocator.MemSbrk: the C `mem_sbrk` takes an `int`; truncating a `size_t` byte count to `int` is not modelled.
- `WSIZE` is fixed at 8 bytes rather than `sizeof(void *)`.
- The model splits some routines into helper methods to keep each proof small: the three cases of `coalesce` and their tag writes (`CoalesceNext`, `CoalescePrev`, `CoalesceBoth`, `PutNextTags`, `PutPrevTags`, `PutBothTags`), the listing at its end (`ListMerged`), the tag writes of `handle_split_block` and the split itself (`SplitTags`, `SplitFreeBlock`), the part of `extend_heap` after `mem_sbrk` and its tag writes (`ExtendFresh`, `PutExtendTags`), and the tail of `mm_malloc` (`ExtendAndPlace`, `ExtendForFit`, `SplitAndPlace`). Each helper performs the same writes in the same order as the C code.
- Frame: the words of a free block other than its tags and its two link words are not framed. The C code never writes them, but no contract says they are kept; no client owns them.
- MM.Allocator.HandleSplitBlock: the heap words and sizes are unbounded, so the `size_t` sum `asize + MIN_BLOCK_SIZE` of `mm.c:240` never wraps in the model. In C it wraps only for a block of nearly 2^64 bytes; the memory system's capacity is not bounded, so the model does not show that such a block cannot exist.
- MM.Allocator.Coalesce: the `size_t` sums of the merged sizes (`mm.c:318`, `mm.c:327`, `mm.c:336`) are unbounded in the model. They wrap only for a heap of 2^64 bytes or more, which the model does not exclude, since its capacity is unbounded.
- MM.Allocator.ExtendHeap: requires a result of at least 32 bytes, or a free last block to merge into. Every caller meets this. A lone 16-byte free block would break the minimum-size rule.
- MM.Allocator.Malloc: on success it states the block returned and the invariant, not the whole new `blocks` and `lists`. The full outcome of each step is stated by `FindFit`, `ExtendHeap` and `HandleSplitBlock`.
- MM.Allocator.ExtendAndPlace: on success it states the block returned and the invariant, not the whole new `blocks` and `lists`.
- MM.Allocator.SplitAndPlace: states the block's new size and the invariant, not the whole new `blocks` and `lists`.
- MM.Allocator.Free: requires an allocated block of the heap (or NULL). What the C code does with any other address is undefined, so it is not modelled.

## Findings

| source | as written | input that shows it | evidently intended | confidence | as-written member | corrected member |
|---|---|---|---|---|---|---|
| assn3-malloc/assn/mm.c:465 | `size + DSIZE + (DSIZE-1)` is computed in 64-bit `size_t` and wraps for requests within 31 bytes of `SIZE_MAX` | `mm_malloc(SIZE_MAX)` adjusts to 16 bytes, so find_fit looks for a block smaller than the minimum, and the caller gets a block far smaller than the request | a request whose adjusted size cannot be represented returns NULL | not executed | Layout.AdjustSizeAsWrittenWraps | MM.Allocator.Malloc |
