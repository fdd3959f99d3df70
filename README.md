# Boundary-tag heap allocator, modelled in Dafny

This project models the heap engine of a small `sbrk`-based memory
allocator written in C (`src/mem_alloc.c`). The allocator owns one
contiguous arena. The arena starts at `heap_start` and ends at `heap_end`,
and it grows and shrinks with the program break. The arena is cut into
blocks:

- each block has a header word and a footer word, both holding the block's
  byte size with the allocation bit in bit 0;
- a free block also holds `next` and `prev` links in its first two payload
  words;
- the free blocks form a circular doubly linked list headed by `free_list`.

`mem_alloc` rounds the request up (`adjust_size`) and looks for the best fit
along the list (`find_free_block`). It splits the chosen block when the rest
is at least `MIN_SIZE`. With no fit, it grows the arena. `mem_free` clears the
tags and merges with free neighbours (`coalesce_right`, `coalesce_left`). It
lists the result, and hands the last block back to the system.
`mem_resize` and `mem_alloc_clear` are built on those two operations.

The model works at two levels:

- **The arena level (module `Heap`).** Class `Allocator` holds the C
  globals as fields:
  - `mem`, the arena words, so `heap_start` is word 0 and `heap_end` is `|mem|`;
  - `freeList`;
  - the `init` flag.

  Two ghost fields add the block starts in address order (`Blocks`) and the
  free list in `next` order (`Free`). Each C function is a method that
  rewrites `mem` word by word as the C code does. A pointer is a word index,
  and NULL is -1.
- **The block level (module `Model`).** The heap is also seen as a sequence
  of `BlockInfo(size, inUse)` values. `Place`, `Grow` and `Release` state what
  an allocation or a release does to that sequence. Every arena-level
  method is proved against them through `View(mem, Blocks)`.

The invariant `Valid()` is the boundary-tag invariant plus the free-list
invariant:

- the arena is tiled by blocks whose header equals their footer;
- every block is a multiple of 8 bytes and at least `MIN_SIZE`;
- the list is a well-formed circular list of distinct free blocks;
- every free block is on the list.

`Consistent()` is the same without the last clause. `KeepsLive` states that
every payload handed out earlier is still in use after a call, at the same
address and under the same header word; it says nothing about the words
inside the payload. `KeepsListed` states that a call puts no free block
off the list: every free block that is off the list afterwards was a free
block off the list before, under the same header word.

Modules:

- `Layout`: constants, `adjust_size`, size arithmetic, tags;
- `Arena`: tiling of the word arena and the block view;
- `FreeList`: the circular list and its link rewrites, best fit;
- `Model`: block-level operations and their laws;
- `Steps`, `Placing`, `Liveness`: proof steps for the methods;
- `Heap`: the allocator;
- `Scenarios`: the repository's test programs worked out on the block view.

Where the allocator's documented behaviour and its code differ, the model
follows the code, with the exceptions listed under "Left out":

- `mem_resize(ptr, 0)` returns NULL without freeing `ptr`, because
  `mem_alloc(0)` fails first.
- `mem_alloc_clear` has no overflow check on `n * size`: the product wraps
  modulo 2^64.
- `mem_free` reports an invalid pointer or a double free by returning with
  no change, not by stopping the process.

## Model

| member | source | states |
|---|---|---|
| Layout.RoundUp8 | src/mem_alloc.c:35 | `(x + 7) & ~7` is the least multiple of 8 not below `x` |
| Layout.AdjustSizeAsWritten | src/mem_alloc.c:31-36 | `adjust_size` as written, in 64-bit `size_t` arithmetic: always a multiple of 8 below 2^64 |
| Layout.AdjustSizeAsWrittenWraps | src/mem_alloc.c:31-36 | for the request `SIZE_MAX`, `adjust_size` wraps to 16: a block smaller than `MIN_SIZE`, whose payload is smaller than the request |
| Layout.AdjustSize | src/mem_alloc.c:227-232 | corrected `adjust_size`: fails exactly when the request exceeds `PTRDIFF_MAX - 23`. Otherwise the block is a multiple of 8, at least `MIN_SIZE`, at most `PTRDIFF_MAX`, and its payload is at least `max(n, MIN_PAYLOAD)` and less than 8 bytes over it |
| Layout.AdjustSizeAsWrittenLarge | src/mem_alloc.c:31-36 | for a request above `MAX_REQUEST`, `adjust_size` as written does not wrap up to `SIZE_MAX - 23`: the block is the rounded request plus 16 bytes, more than `PTRDIFF_MAX`. Each of the 23 larger requests wraps to a block below `MIN_SIZE` |
| Layout.AdjustSizeAgrees | src/mem_alloc.c:31-36 | for every request the corrected version accepts, it agrees with the code as written |
| Layout.ClearBytesAsWritten | src/mem_alloc.c:362 | `n * size` as written: below 2^64, and the true product whenever that product fits |
| Layout.ClearBytesAsWrittenWraps | src/mem_alloc.c:362 | `(2^32 + 1) * 2^32` wraps to 2^32, far below the true product |
| Layout.ClearBytes | src/mem_alloc.c:362 | checked product: fails exactly when `n * size` exceeds `SIZE_MAX`, otherwise it is `n * size` |
| Layout.Tag | src/mem_alloc.c:275-279 | `size \| 1` or `size` encodes the size and the allocation bit, and both are read back unchanged |
| Model.Join | src/mem_alloc.c:150-159 | two neighbouring blocks are replaced by one, so the heap has one block fewer |
| Model.MergeRight | src/mem_alloc.c:143-169 | the right merge keeps the block's position and its left neighbour, and a free block stays free |
| Model.Coalesce | src/mem_alloc.c:313-327 | the right merge, then the left merge: the merged block sits where the run of the block and its free neighbours starts |
| Model.CoalesceShape | src/mem_alloc.c:313-327 | after the tags are cleared, the block and its free neighbours become one free block of their total size, and every other block keeps its place |
| Model.Release | src/mem_alloc.c:306-343 | freeing block `i` leaves one block per merge fewer, and one more fewer when the merged block is the last one. The blocks before the merged run are kept. When the run is not last, the merged block is free and the blocks after the run follow it unchanged |
| Model.Loses | src/mem_alloc.c:313-333 | the case in which `mem_free` leaves the merged block off the list: that block stays in the heap, free, after a block in use and before another block, so the shrink at the top does not remove it |
| Model.ReleaseShape | src/mem_alloc.c:285-345 | freeing a block replaces it and its free neighbours by one free block of their total size, keeps every other block, and drops that block when it is the last one |
| Model.ReleaseTotal | src/mem_alloc.c:336-343 | the heap shrinks exactly by the merged block when that block was last, and one block fewer is in use |
| Model.ReleaseCoalesced | src/mem_alloc.c:313-327 | freeing keeps the heap coalesced: no two neighbouring free blocks |
| Model.LostBlock | src/mem_alloc.c:320-333 | in the lost case the freed block and its right neighbour are one free block in place, with every other block unchanged |
| Model.PlaceFits | src/mem_alloc.c:256-271 | `Place`, the split-or-take of a best-fit block: placing a request in a free block keeps the heap's bytes and the blocks before it, adds one block in use, and gives it at least the request: the exact size, or the whole block when the rest is under `MIN_SIZE` |
| Model.PlaceCoalesced | src/mem_alloc.c:259-271 | placing a request keeps the heap coalesced |
| Model.GrowFits | src/mem_alloc.c:237-251 | `Grow`, the new top block: growing adds exactly the new block's bytes and one block in use, and keeps the heap coalesced |
| FreeList.AddLinksWF | src/mem_alloc.c:46-75 | `AddLinks`, the link writes of `free_list_add`, turn a well-formed circular list into one with the new block at its head, and leave the other words alone |
| FreeList.RemoveLinksWF | src/mem_alloc.c:77-100 | `RemoveLinks` and `RemoveHead`, the link writes and the new head of `free_list_remove`: on a listed block they leave a well-formed list of the other blocks with the head moved on if needed, and leave the other words alone |
| FreeList.RemoveLeavesStale | src/mem_alloc.c:77-100 | a block just taken off the list keeps stale links: to itself when the list is now empty, otherwise to two listed blocks that now link to each other |
| FreeList.RemoveStale | src/mem_alloc.c:77-100 | removing a block that is already off the list, with such stale links, changes nothing |
| FreeList.ListFrame | src/mem_alloc.c:46-100 | the list stays well-formed under any write that keeps its link words |
| FreeList.BestFit | src/mem_alloc.c:111-122 | the index the scan of the first `k` entries keeps is -1 or an entry large enough |
| FreeList.BestFitSpec | src/mem_alloc.c:102-125 | that index is -1 exactly when no scanned entry is large enough. Otherwise no large-enough entry is smaller, and ties go to the first one met |
| Heap.BestFitBlock | src/mem_alloc.c:102-125 | `find_free_block`'s answer is NULL or a block on the list |
| Heap.BestFitBlockSpec | src/mem_alloc.c:102-125 | the answer is NULL exactly when no listed block is large enough; otherwise it is a listed block that is large enough, and no large-enough listed block is smaller |
| Heap.BestFitMeaning | src/mem_alloc.c:102-125 | the scan over the whole list finds a smallest large-enough block, or none exactly when none fits |
| Heap.Allocator.constructor | src/mem_alloc.c:15-17 | the globals start NULL: an empty, valid, not yet started heap |
| Heap.Allocator.InitHeap | src/mem_alloc.c:26-29 | starting the heap leaves an empty arena, `heap_end == heap_start` |
| Heap.Allocator.FreeListAdd | src/mem_alloc.c:46-75 | pushes `p` at the head of the circular list, both when the list is empty and when it is not, and keeps the list well-formed |
| Heap.Allocator.FreeListRemove | src/mem_alloc.c:77-100 | unlinks `p`, including the one-element list and the head case. On a listed block the list is the old one without `p`; on an unlisted block with stale links nothing changes |
| Heap.Allocator.FindFreeBlock | src/mem_alloc.c:102-125 | the do-while walk of the circular list returns the best-fit block `BestFitBlock` |
| Heap.Allocator.CoalesceRight | src/mem_alloc.c:143-169 | with a free right neighbour, the two blocks join, the neighbour is removed from the list and the joined block is pushed at its head; otherwise nothing changes. The flag is set exactly when a merge happened |
| Heap.Allocator.AbsorbNext | src/mem_alloc.c:150-166 | the merge branch of `coalesce_right`: joined tags, the neighbour unlinked, the block pushed on the list |
| Heap.Allocator.CoalesceLeft | src/mem_alloc.c:179-201 | with a free left neighbour, that neighbour absorbs the block and is returned; otherwise the block is returned unchanged. The list is untouched |
| Heap.Allocator.MemAlloc | src/mem_alloc.c:212-282 | NULL exactly for a zero request, a request above `MAX_REQUEST` (refused by the corrected `AdjustSize`, see Left out), or no fit with growth refused, and then nothing changes. Otherwise the payload is fresh and holds at least `n` bytes, it is the best-fit block placed by `Place` or a new top block by `Grow`, one more block is in use, earlier payloads are kept, and validity is kept. No free block is taken off the list unless it is the block used, so a heap with a lost block keeps its other free blocks listed (`KeepsListed`) |
| Heap.Allocator.Allocate | src/mem_alloc.c:232-281 | the part of `mem_alloc` after size adjustment, for an adjusted size; it puts no free block off the list (`KeepsListed`) |
| Heap.Allocator.GrowHeap | src/mem_alloc.c:237-251 | growing places one allocated block of `size` bytes at the old `heap_end` |
| Heap.Allocator.TakeBlock | src/mem_alloc.c:252-281 | the hit branch: the view becomes `Place(view, i, size)`, the payload starts after the chosen header, and the list stays complete |
| Heap.Allocator.UnlistBlock | src/mem_alloc.c:254 | `free_list_remove(free_block)`: the block leaves the list and the view is unchanged |
| Heap.Allocator.PlaceRequest | src/mem_alloc.c:256-281 | the split or whole-block placement with tagging gives `Place(view, i, size)` |
| Heap.Allocator.SplitBlock | src/mem_alloc.c:259-267 | the split: an allocated front of `size` bytes and a free remainder that is pushed on the list |
| Heap.Allocator.SplitWrites | src/mem_alloc.c:262-279 | the remainder's tags, its push on the list and the front's tags, as word writes |
| Heap.Allocator.MarkBlock | src/mem_alloc.c:268-279 | the whole block is allocated under its own size |
| Heap.Allocator.MemFree | src/mem_alloc.c:285-345 | `mem_free` as written. For a pointer outside the arena or a free block nothing changes. Otherwise the view becomes `Release(view, i)` and one block fewer is in use. Validity is kept except in the `Loses` case, where the merged block is left off the list |
| Heap.Allocator.FreeBlock | src/mem_alloc.c:306-343 | the body of `mem_free` as written after the pointer checks: the view becomes `Release`, and the list stays complete unless `Loses`, where the freed block is free and off the list |
| Heap.Allocator.FreeMerge | src/mem_alloc.c:306-334 | the tag clearing and both merges as written: in the `Loses` case the merged block is the freed block, taken off the list and not put back; otherwise it is off the list only when nothing merged or when it is the last block |
| Heap.Allocator.MemFreeListed | src/mem_alloc.c:285-345 | corrected `mem_free`: the same release with every free block listed, so validity is always kept |
| Heap.Allocator.FreeBlockListed | src/mem_alloc.c:306-343 | the corrected body, giving `Release(view, i)` |
| Heap.Allocator.ReleaseMerge | src/mem_alloc.c:306-327 | the tag clearing and merges of the corrected body, telling whether the merged block is listed |
| Heap.Allocator.ClearTags | src/mem_alloc.c:306-311 | clearing the allocation bit in header and footer frees block `i` in the view and changes nothing else |
| Heap.Allocator.MergeNeighbours | src/mem_alloc.c:313-327 | both merges give `Coalesce(view, i)`. The flag is set exactly when a merge happened, and the merged block is stale-unlinked exactly in the lost case |
| Heap.Allocator.MergeRightNeighbour | src/mem_alloc.c:315-318 | the right merge, unless the block is last, gives `MergeRight(view, i)` |
| Heap.Allocator.MergeLeftNeighbour | src/mem_alloc.c:320-327 | the left step, unless the block is first, gives `Coalesce(view, i)` |
| Heap.Allocator.MergeLeft | src/mem_alloc.c:321-325 | unlink after a right merge, then `coalesce_left` |
| Heap.Allocator.Settle | src/mem_alloc.c:329-343 | list the block when it did not merge, and hand it back to the system when it is last |
| Heap.Allocator.ReleaseTop | src/mem_alloc.c:336-343 | the last block leaves the list and the arena, and the rest is unchanged |
| Heap.Allocator.MemResize | src/mem_alloc.c:348-357 | on any consistent heap, including one where an earlier `mem_free` lost a block, with `ptr` NULL or in use and the free neighbours of `ptr`'s block listed: NULL exactly when `mem_alloc(size)` fails, and then nothing changes. Otherwise the result is a fresh payload of at least `size` bytes, `ptr` is released by `mem_free` as written, and every other payload is kept. The heap stays consistent; from a valid heap it stays valid, except that the free may lose the merged block at `ptr - 1`, which is then free and off the list |
| Heap.Allocator.MoveAndFree | src/mem_alloc.c:351-354 | copy into the new block, then free the old one with `mem_free` as written, on a consistent heap whose free blocks around `ptr` were listed before the allocation: the view becomes `Release`, a valid heap stays valid unless `Loses`, the new block is kept, and one block fewer is in use |
| Heap.Allocator.MovePayload | src/mem_alloc.c:352 | the copy: each of the first `size` bytes' words that lies inside the old payload now holds, in the new block, the old payload's word at the same offset. The arena keeps its length, both payloads stay in use, the blocks, the list and the view are unchanged, and consistency and validity are kept |
| Heap.Allocator.CopyPayload | src/mem_alloc.c:352 | the destination payload words equal the source words and nothing else changes |
| Heap.ResizeCopyAsWritten | src/mem_alloc.c:352 | the `memcpy` length as written: the words covering `size` bytes |
| Heap.ResizeCopyOverreads | src/mem_alloc.c:348-352 | a one-block heap whose block has a 16-byte payload: `mem_alloc(100)` grows it by a 120-byte block whose payload starts at word 5, and the copy as written then reads 13 words from word 1, past the old block's end at word 4 and into the destination words 5 to 17 |
| Heap.ResizeCopy | src/mem_alloc.c:352 | corrected copy length: within the old payload and within the request, and one of the two exactly |
| Heap.CopyWords | src/mem_alloc.c:352 | word-by-word `memcpy` of disjoint ranges: the target range equals the source range and everything else is unchanged |
| Heap.Allocator.MemAllocClear | src/mem_alloc.c:360-368 | `mem_alloc_clear` as written, with the wrapped product. NULL exactly when `mem_alloc` of the wrapped product fails. Otherwise the first wrapped-product bytes are zero, earlier payloads are kept, and one more block is in use |
| Heap.Allocator.MemAllocClearChecked | src/mem_alloc.c:360-368 | corrected `mem_alloc_clear`: NULL exactly when `n * size` overflows, is zero, is above `MAX_REQUEST`, or finds no fit with growth refused, and then nothing changes. Otherwise the payload is fresh, holds at least `n * size` bytes, all zero, and earlier payloads are kept |
| Heap.Allocator.ZeroAfterAlloc | src/mem_alloc.c:363-365 | `memset(block, 0, n)` zeroes the payload's first words and keeps validity and every block |
| Heap.Allocator.ZeroPayload | src/mem_alloc.c:364 | zeroing a payload range changes nothing outside it and keeps the block structure |
| Heap.ZeroWords | src/mem_alloc.c:364 | word-by-word `memset`: the range is zero and everything else is unchanged |
| Liveness.PlaceKeepsLive | src/mem_alloc.c:268-279 | allocating a whole free block keeps every payload in use |
| Liveness.SplitKeepsLive | src/mem_alloc.c:259-279 | splitting a free block keeps every payload in use |
| Liveness.GrowKeepsLive | src/mem_alloc.c:237-251 | growing the arena keeps every payload in use |
| Liveness.ClearKeepsLive | src/mem_alloc.c:306-311 | freeing block `i` keeps every other payload in use |
| Liveness.JoinKeepsLive | src/mem_alloc.c:150-159 | joining two free blocks keeps every payload in use |
| Liveness.SettleKeepsLive | src/mem_alloc.c:336-343 | dropping the free top block keeps every payload in use |
| Liveness.GrowKeepsListed | src/mem_alloc.c:237-251 | growing the arena puts no free block off the list |
| Liveness.MarkKeepsListed | src/mem_alloc.c:268-279 | allocating a whole free block puts no other free block off the list |
| Liveness.SplitKeepsListed | src/mem_alloc.c:259-279 | splitting a free block, with the remainder pushed on the list, puts no free block off the list |
| Liveness.UnlistKeepsListed | src/mem_alloc.c:252-281 | taking the chosen block off the list and then allocating it puts no other free block off the list |
| Liveness.NeighboursKept | src/mem_alloc.c:348-353 | a block in use whose free neighbours are listed keeps them listed across a `mem_alloc` that puts no free block off the list, so the `mem_free(ptr)` after it finds them on the list |
| Scenarios.SixBlocks | tests/test_best-fit.c:7-12 | the six allocations on a fresh heap give six blocks in use of 120, 216, 168, 320, 72 and 192 bytes |
| Scenarios.TestRequestSizes | tests/test_best-fit.c:7-25 | `adjust_size` turns the test requests into those block sizes, and 60 into 80 |
| Scenarios.BestFitScenario | tests/test_best-fit.c:18-25 | after the three frees, 80 bytes fit best in the 120-byte block, which splits into 80 in use and 40 free |
| Scenarios.CoalescingScenario | tests/test_coalescing.c:19-39 | the five frees merge step by step into a single 896-byte free block before the last block |
| Scenarios.LostBlockScenario | src/mem_alloc.c:315-333 | freeing the third and then the second of the six blocks hits the lost case: one free 384-byte block that is off the list |

## Left out

- The `show_block`, `show_free_list` and `show_heap` printers are not modelled: they only print.
- `sbrk` is an input. Whether growth is granted is the `brkOk` argument, shrinking is taken to succeed, and `errno` is not modelled.
- New arena words are zero. The C code gets whatever the system maps.
- Pointers are word indices, and every block size is a multiple of the 8-byte word.
- A pointer into the arena that is not the payload start of some block is excluded by `requires`. The C code reads an arbitrary word there as a header, and that behaviour is undefined.
- Heap.Allocator.MemFree: requires that a free neighbour of the freed block is on the list. Without it `free_list_remove` follows stale links, and that corruption is not modelled. The `Loses` case is what breaks this, and MemFreeListed needs no such requirement.
- Heap.Allocator.MemResize: requires, besides `ptr` NULL or in use (src/mem_alloc.h:42-53), that each free neighbour of `ptr`'s block is on the list, as MemFree does: the free at the end would otherwise follow stale links. A heap where the lost block is next to `ptr` is therefore not covered. It does not state that the copied words survive the release of the old block; MovePayload states the copy itself.
- Heap.Allocator.MemResize: a NULL `ptr` skips the copy. The C code passes NULL to `memcpy`, which is undefined.
- Heap.Allocator.MemResize: it copies the corrected length, `min(old usable size, size)`, so it does not show the over-read. That is in the Findings.
- Heap.Allocator.MemAlloc: a request above `MAX_REQUEST` (`PTRDIFF_MAX - 23`) gets NULL with nothing changed, through the corrected `AdjustSize`. The code has only a comment at that point (src/mem_alloc.c:227-228) and calls the unguarded `adjust_size`. Up to `SIZE_MAX - 23` that does not wrap: the block size exceeds `PTRDIFF_MAX` (for `MAX_REQUEST + 1` it is `PTRDIFF_MAX + 1`, for `SIZE_MAX - 23` it is 2^64 - 8), so `sbrk` gets an increment that is negative as a signed value. Only the 23 largest requests wrap, to a block of 0, 8 or 16 bytes; `mem_alloc(SIZE_MAX)` then returns a non-NULL block and changes the heap. Neither path is modelled: a block below `MIN_SIZE` cannot be part of the tiling, and `sbrk` with a negative increment would shrink the arena. AdjustSizeAsWrittenLarge states both ranges, and the wrap is in the Findings.
- Heap.Allocator.MemAllocClear and Heap.Allocator.MemResize: they call MemAlloc, so they get NULL for such requests too; for example `mem_alloc_clear(SIZE_MAX, 1)` gets NULL in the model.
- Heap.Allocator.MemAllocClear: zeroes whole words, so up to 7 bytes past `n * size` are zeroed too. The C code zeroes exactly `n * size` bytes.
- The model is single-threaded, like the code, which has no locking.

## Findings

| source | as written | input that shows it | evidently intended | confidence | as-written member | corrected member |
|---|---|---|---|---|---|---|
| src/mem_alloc.c:31-36 | `2 * WORD_SIZE + ((size + 7) & ~7)` wraps in `size_t` | `mem_alloc(SIZE_MAX)` gets a 16-byte block | refuse requests above `PTRDIFF_MAX` (comment at src/mem_alloc.c:227-228) | not executed | Layout.AdjustSizeAsWrittenWraps | Layout.AdjustSize |
| src/mem_alloc.c:362 | `n * size` wraps in `size_t` | `mem_alloc_clear(2^32 + 1, 2^32)` allocates and zeroes 2^32 bytes | fail when the product overflows | not executed | Layout.ClearBytesAsWrittenWraps | Heap.Allocator.MemAllocClearChecked |
| src/mem_alloc.c:352 | `memcpy(block, ptr, size)` copies the new size | resizing a 16-byte payload to 100 bytes reads 100 bytes from it, past its block and into the new payload | copy `min(old usable size, size)` | not executed | Heap.ResizeCopyOverreads | Heap.ResizeCopy |
| src/mem_alloc.c:320-333 | after a right merge the block is unlinked before `coalesce_left`, and it is not re-added when the left neighbour is in use | free the third block, then the second, of six blocks in use | the merged block stays on the free list | not executed | Scenarios.LostBlockScenario | Heap.Allocator.MemFreeListed |
