# mm.c: an explicit free list allocator with boundary tags

This project models the allocator in `mm.c` and proves what it promises.
`mm.c` carves the memlib heap into blocks. Each block has a 4-byte header
and a 4-byte footer, and each holds its size and an allocated bit. Free
blocks are chained on a doubly linked LIFO list. Its links are 32-bit
offsets from `free_listp`, the first word of the heap. That word is
padding before the prologue and serves as the list's sentinel: it holds
the offset of the first free block, or 0 when the list is empty. The
prologue's header is the next word, at `free_listp + 4`. The model
covers:

- `malloc`: first fit, growing the heap when nothing fits.
- `place`: splits a block when the remainder can stand as a free block.
- `free`: coalesces with free neighbours (four cases).
- `realloc`: malloc, copy, free.
- `calloc`: malloc and clear.
- The helpers `find_fit`, `add_list`, `remove_list`, `coalesce`,
  `extend_heap` and `mm_init`.

The modules follow the source:

- `Tags`: the macros (ALIGN, PACK, GET_SIZE, GET_ALLOC, HDPR, FTPR,
  NEXT_BLPR, PREV_BLPR), written arithmetically on unsigned 32-bit words.
- `Layout`: the heap invariant.
  - `Tiled`: blocks tile the heap from the prologue to the epilogue; a
    footer equals its header.
  - `Coalesced`: no two free blocks are adjacent.
  - `ListOk`: the free list's links match a ghost list `flist`.
  - `Tracks`: every free block is on the list.
  - Also the writes of `add_list` and `remove_list`, and first fit.
- `Retile`, `Steps`, `Coalescing`, `Extending`, `Release`: what each
  sequence of writes in `place`, `coalesce`, `extend_heap`, `mm_init` and
  `free` does to that invariant.
- `Requests`: the byte counts derived from the callers' arguments,
  including the three computations that `mm.c` gets wrong.
- `Promises`: what each public call guarantees.
- `Mm`: class `Allocator`. It holds:
  - the memlib region as an `array` of words indexed by byte address;
  - the break `brk` and `free_listp`;
  - the ghost block and free lists.

  Its methods do the writes of `mm.c` in its order. Every public method
  requires and ensures `Valid()`, the heap check that `mm_checkheap` leaves
  empty.

Pointers passed to and returned by the public calls are `Option<int>`,
with `None` for NULL. A block is named by its payload address.

## Model

| member | source | states |
|---|---|---|
| Tags.Align | mm.c:37 | ALIGN(n) is a multiple of 8 in [n, n + 8) |
| Tags.AlignLeast | mm.c:37 | ALIGN(n) is the least multiple of 8 that is at least n |
| Tags.Pack | mm.c:47-54 | GET_SIZE and GET_ALLOC of PACK(size, alloc) give back size and alloc |
| Tags.GetSize | mm.c:53 | masking the low three bits gives the multiple of 8 just below the tag |
| Tags.GetAlloc | mm.c:54 | the allocated bit is 1 exactly when the tag is odd |
| Tags.TagsBracketBlock | mm.c:56-59 | header through footer span exactly size bytes, and NEXT_BLPR's header follows the footer |
| Tags.AdjustedCoversRequest | mm.c:189 | ALIGN(size + DSIZE) is aligned and leaves at least size payload bytes |
| Layout.FirstFit | mm.c:71-81 | the index find_fit stops at: every earlier node is too small, and the node there fits; the list length when none fits |
| Layout.AddListLinks | mm.c:83-92 | add_list's writes turn a well-linked list fl into a well-linked list p :: fl |
| Layout.AddListKeeps | mm.c:83-92 | add_list leaves every block's tags, the tiling and every allocated block's span as they were |
| Layout.RemoveListLinks | mm.c:94-101 | remove_list's writes leave the list with node k dropped and the others in order, links consistent |
| Layout.RemoveListKeeps | mm.c:94-101 | remove_list leaves every block's tags, the tiling and every allocated block's span as they were |
| Layout.WithoutMembers | mm.c:94-101 | dropping node k removes exactly that block from the list |
| Steps.PlaceWholeStep | mm.c:106-109 | taking a block whole keeps the heap valid, marks it allocated with its size, and adds it to the allocated set |
| Steps.PlaceSplitDone | mm.c:110-119 | a split leaves p allocated at the asked size and a listed free remainder with the rest, heap valid |
| Coalescing.RunFacts | mm.c:123-127 | the run of free blocks around p is bounded by allocated blocks or the prologue and epilogue |
| Coalescing.AloneStep | mm.c:127-129 | case 1: p is pushed on the list and returned; blocks unchanged |
| Coalescing.NextStep | mm.c:130-136 | case 2: next leaves the list, p spans both blocks and is pushed on the list |
| Coalescing.PrevStep | mm.c:137-141 | case 3: pre spans both blocks, the list is unchanged, pre is returned |
| Coalescing.BothStep | mm.c:142-147 | case 4: next leaves the list, pre spans all three blocks and is returned |
| Extending.ExtendDone | mm.c:152-166 | after extend_heap the break grew by size, the heap is valid, and the result is a listed free block ending at the break |
| Extending.ExtendShape | mm.c:161-165 | either the old last free block grew by size in place, or the new block stands alone at the head of the list |
| Extending.PrologueStep | mm.c:171-177 | the prologue words make an empty heap ready for its first chunk |
| Extending.FirstChunk | mm.c:179-182 | after mm_init the heap is one free block of CHUNKSIZE bytes, the only one on the list |
| Release.ReleaseStep | mm.c:205-207 | clearing p's allocated bit removes exactly p from the allocated set and touches no other allocated block |
| Release.ReleaseDone | mm.c:202-210 | free(p) leaves the allocated set minus p, every other allocated block unchanged |
| Release.PayloadWrite | mm.c:243 | writing inside an allocated payload keeps the heap valid and every other allocated block |
| Requests.AdjustedSize | mm.c:189 | the block size for a request: aligned, at least MIN_BLOCK, room for header, footer and payload |
| Requests.AdjustedSizeLeast | mm.c:189 | no smaller aligned block holds the request and the two free-list links |
| Requests.AdjustedSizeAgrees | mm.c:189 | the corrected size differs from ALIGN(size + DSIZE) exactly for size 0 |
| Requests.TinyBlockAsWritten | mm.c:189 | malloc(0) as written asks for 8 bytes; once freed, add_list overwrites its footer and the next block's header |
| Requests.ExtendBytes | mm.c:156 | extend_heap's size is the least multiple of 8 holding the words |
| Requests.ExtendCovers | mm.c:194-195 | extend_heap(MAX(asize, CHUNKSIZE) / WSIZE) asks for exactly MAX(asize, CHUNKSIZE) bytes |
| Requests.CopyLenAsWrittenOverreads | mm.c:41 | SIZE_PTR as written is at least 2^32, so memcpy copies size bytes and reads past p's footer when size exceeds p's payload |
| Requests.CopyLen | mm.c:241-243 | the copy length is the smaller of size and p's payload |
| Requests.CopyLenAgrees | mm.c:241-243 | as written and corrected lengths agree exactly when size fits in p's payload |
| Requests.WordsFor | mm.c:243 | whole words covering n bytes: at least n, less than n + 4 |
| Requests.WordsForFits | mm.c:243 | those words stay inside a payload that holds n bytes |
| Requests.CallocBytesAsWrittenWraps | mm.c:254 | 2^32 times 2^32 wraps to 0 bytes |
| Requests.CallocBytes | mm.c:254 | the product when it fits in a size_t, None otherwise |
| Requests.CallocBytesAgrees | mm.c:254 | the corrected count and the wrapped product agree exactly when the product fits |
| Promises.MallocDone | mm.c:185-200 | malloc's promise: a fresh block of at least the adjusted size, the first fit when one exists, everything allocated before unchanged |
| Promises.MallocKeeps | mm.c:231 | malloc's new block is not the old one and leaves the old one as it was |
| Promises.CopyFits | mm.c:231-243 | the copied words lie inside the old payload and fit in the new one, and the two blocks do not overlap |
| Promises.ReallocBlock | mm.c:231-247 | after realloc, q replaces p in the allocated set, sized as malloc sizes it |
| Promises.ReallocContents | mm.c:240-245 | q's payload starts with p's old payload cut to size; other allocated blocks are unchanged |
| Promises.ReallocDone | mm.c:217-248 | realloc's promise from malloc through memcpy to free |
| Promises.CallocDone | mm.c:253-261 | clearing the payload keeps malloc's promise |
| Mm.Allocator.constructor | mm.c:69 | a fresh region of the given capacity before mm_init: break 0, no blocks, an empty list, and free_listp NULL (-1, outside the region) |
| Mm.Allocator.Sbrk | mm.c:158-159 | mem_sbrk: the old break and a grown break, or failure with the break unchanged |
| Mm.Allocator.PutTags | mm.c:161-162 | PUT of a header and footer pair: exactly those two words change |
| Mm.Allocator.FindFit | mm.c:71-81 | returns the first listed block that fits, NULL only when none does |
| Mm.Allocator.AddList | mm.c:83-92 | pushes p on the list with add_list's writes, guarding the empty list |
| Mm.Allocator.RemoveList | mm.c:94-101 | unlinks node k with remove_list's writes, guarding the last node |
| Mm.Allocator.Place | mm.c:103-120 | heap stays valid; the block is split when the remainder is at least 16 bytes, taken whole otherwise |
| Mm.Allocator.PlaceSplit | mm.c:110-119 | the split branch: p at the asked size, the free remainder listed |
| Mm.Allocator.TakeWhole | mm.c:107-109 | the whole-block branch: the list loses exactly p's node, and the only other writes tag p's header and footer allocated at the full block size |
| Mm.Allocator.Carve | mm.c:111-117 | the split branch's writes before add_list: the list loses exactly p's node, p is tagged allocated at the asked size, and the remainder after it is tagged free at the rest of the block |
| Mm.Allocator.Coalesce | mm.c:122-150 | merges p with its free neighbours per the four cases and returns the merged block's start; when the next block was free, the list is exactly the old one without it, with p pushed on the front unless the previous block was free |
| Mm.Allocator.CoalesceAlone | mm.c:127-129 | case 1, both neighbours allocated: p alone is pushed on the list and the blocks are unchanged |
| Mm.Allocator.CoalesceNext | mm.c:130-136 | case 2, only the next block free: it leaves the list, p spans both blocks, and the list is p pushed on the rest |
| Mm.Allocator.CoalescePrev | mm.c:137-141 | case 3, only the previous block free: it spans both blocks and keeps its place; the list is unchanged |
| Mm.Allocator.CoalesceBoth | mm.c:142-147 | case 4, both neighbours free: next leaves the list and the previous block spans all three |
| Mm.Allocator.Absorb | mm.c:131-134 | the writes of cases 2 and 4: remove_list(next) drops exactly that node, then the merged block's header and footer are tagged free at the summed size; nothing else changes |
| Mm.Allocator.ExtendHeap | mm.c:152-166 | on sbrk failure nothing changes; otherwise the heap grows by the rounded size and is coalesced |
| Mm.Allocator.Grow | mm.c:161-165 | the new block's tags, the new epilogue, then coalesce |
| Mm.Allocator.PutBlock | mm.c:161-163 | extend_heap's writes: the new block tagged free at the full size and, found through NEXT_BLPR, an allocated zero-size epilogue after it; nothing else changes |
| Mm.Allocator.PutPrologue | mm.c:174-177 | mm_init's four writes: the sentinel word at free_listp is 0 (empty list), then three words PACK(8, 1); nothing else changes |
| Mm.Allocator.Init | mm.c:169-183 | returns 0 exactly when the prologue and first chunk fit, with one free block of CHUNKSIZE bytes |
| Mm.Allocator.Malloc | mm.c:185-200 | heap stays valid; malloc's promise; NULL exactly when nothing fits and the heap cannot grow |
| Mm.Allocator.Free | mm.c:202-210 | heap stays valid; NULL changes nothing; otherwise free's promise |
| Mm.Allocator.Realloc | mm.c:217-248 | size 0 frees and returns NULL; NULL mallocs; a failed malloc leaves everything untouched; otherwise realloc's promise |
| Mm.Allocator.Move | mm.c:231-247 | malloc, copy, free for a live block, the old block untouched on failure |
| Mm.Allocator.CopyInto | mm.c:240-243 | copies the old payload, cut to size, into q; nothing else changes |
| Mm.Allocator.CopyWords | mm.c:243 | memcpy: the destination words equal the source words, nothing outside changes |
| Mm.Allocator.Calloc | mm.c:253-261 | heap stays valid; a product that does not fit returns NULL; otherwise malloc's promise with a cleared payload |
| Mm.Allocator.ZeroWords | mm.c:258 | memset: the destination words are 0, nothing outside changes |

## Left out

- memlib.c is not part of this model. `mem_sbrk` is modelled as a fixed-capacity region with a break that fails past the capacity or on a negative increment. Its `int` argument truncation is not modelled.
- The DRIVER aliases and `mm_checkheap`. The latter is empty; `Valid()` states the check it would make.
- Concurrency: the allocator is single-threaded and so is the model.
- Mm.Allocator.Malloc: when `extend_heap` fails, `mm.c` passes NULL to `place`, which dereferences it. The model returns None and changes nothing instead.
- Mm.Allocator.Calloc: `mm.c` calls `memset` on a NULL result. The model skips the clear when malloc fails.
- Mm.Allocator.Malloc: the addition `size + DSIZE` wraps in size_t for sizes near 2^64. The model does not wrap; such a request fails for lack of room.
- Mm.Allocator.CopyWords and Mm.Allocator.ZeroWords move whole 4-byte words: `memcpy` and `memset` of n bytes are modelled as ceil(n/4) words. The extra bytes stay inside both payloads.
- Mm.Allocator.ExtendHeap requires at least 4 words (one MIN_BLOCK). That is weaker than what its callers pass: `malloc` asks for MAX(asize, CHUNKSIZE) / WSIZE words and `mm_init` for CHUNKSIZE / WSIZE, so both pass at least 32. Fewer than 4 words would make a block too small for its links, and no caller asks for that.
- The region is at most 2^32 bytes, so that the 32-bit list offsets reach every block.
- NULL `free_listp` before `mm_init` is modelled as -1.
- SIZE_PTR reads an 8-byte `size_t` as written. The model reads it little-endian from two 4-byte words.
- A block's payload bytes are words of the region. Per-byte writes and alignment of the caller's data are not modelled.

## Findings

| source | as written | input that shows it | evidently intended | confidence | as-written member | corrected member |
|---|---|---|---|---|---|---|
| mm.c:189 | malloc's block size is ALIGN(size + DSIZE), which is 8 for size 0 | mm_init; p = malloc(0); malloc(112); free(p): both neighbours of p are allocated, so coalesce adds p alone, and add_list writes the successor link over p's own footer and the predecessor link (0) over the next block's header | a block is at least 16 bytes, room for both links | high, not executed | Requests.TinyBlockAsWritten | Requests.AdjustedSize |
| mm.c:241 | the copy length is *SIZE_PTR(oldptr), the 8 bytes before the payload: the previous footer and this header | realloc of a 16-byte block (8 payload bytes) to 100 bytes: SIZE_PTR is at least 2^32, so memcpy copies 100 bytes out of an 8-byte payload | the old payload size, GET_SIZE(HDPR(oldptr)) - DSIZE | high, not executed | Requests.CopyLenAsWrittenOverreads | Requests.CopyLen |
| mm.c:254 | bytes = nmemb * size in size_t arithmetic | calloc(2^32, 2^32) asks malloc for 0 bytes and returns a block | NULL when the product overflows | high, not executed | Requests.CallocBytesAsWrittenWraps | Requests.CallocBytes |
