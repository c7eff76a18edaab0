# el_malloc: an explicit-free-list allocator with boundary tags

This project models the allocator in `el_malloc.c`. The allocator turns one
mapped region of `heap_bytes` bytes, starting at `heap_start`, into a sequence
of blocks. Each block has three parts:

- a header: size, state tag, and `prev`/`next` links;
- a payload of `size` bytes;
- a footer that repeats the size.

Two doubly-linked lists, held in the global control record `el_ctl`, hold the
available blocks and the used blocks. Each list is bounded by begin and end
sentinels and keeps running `length` and `bytes` counters.

- `el_malloc` takes the first available block with room for the request plus
  one block overhead. It splits that block, files the front part on the used
  list and the rest on the available list.
- `el_free` moves a block back to the available list. It merges the block with
  the available block above it, and then merges the block below with it.

## Layers

The model has two layers.

**Values.** Module `HeapState` describes `el_ctl` together with memory as one
value, `Mem`. Memory is two maps: one from addresses to header records, one
from addresses to footer sizes. Memory that was never written reads as zeros,
matching freshly mapped anonymous memory. `HeapState` gives one step function
per C function (`InitMem`, `RemoveBlockMem`, `SplitBlockMem`, `MallocMem`,
`MergeMem`, `FreeMem`, …). Each one makes the source's reads and writes in the
source's order.

The invariant `Valid` combines:

- both lists well formed and disjoint, with counters that match their members;
- the blocks tiling `[heap_start, heap_end)`, with each footer repeating its header's size;
- the counters adding up to `heap_bytes`;
- the lists partitioning the blocks by state tag;
- no two address-adjacent blocks both available.

The proofs about these steps are in four modules:

- `Layout`: headers, footers and the tiling;
- `BlockLists`: linked lists;
- `BlockStates`: state tags and coalescing;
- `HeapSteps` and `HeapOps`: the whole heap.

**The running program.** Module `ElMalloc` has a class `Heap` whose fields are
the fields of `el_ctl` plus the two memory maps. Its methods make the C
statements one store at a time. Each method is proved to reach exactly the step
function's result (`State() == MallocMem(old(State()), n)` and so on).

Three pieces of ghost bookkeeping name what the pointers describe:

- the blocks in address order;
- the members of the available list, in list order;
- the members of the used list, in list order.

The structure sizes come from the block-list print format described at
el_malloc.c:116-153:

- `sizeof(el_blockhead_t)` is 32;
- `sizeof(el_blockfoot_t)` is 8;
- `EL_BLOCK_OVERHEAD` is 40.

`el_malloc.h` is not part of this model. The sentinels live in `el_ctl`,
outside the heap, so they have distinct negative addresses here. NULL is
address 0, and the heap lies above it.

## Model

| member | source | states |
|---|---|---|
| Layout.GetFooter | el_malloc.c:63-67 | the footer lies where stepping back over the header's size and one header from it returns to the header |
| Layout.GetHeader | el_malloc.c:71-78 | the header lies where stepping forward over the footer's size and one header from it returns to the footer |
| Layout.HeaderOfFooter | el_malloc.c:63-78 | when a footer repeats its header's size, el_get_header(el_get_footer(h)) == h |
| Layout.AboveInTiling | el_malloc.c:85-92 | on a tiled heap el_block_above of block k is block k + 1, and NULL for the last block |
| Layout.BelowInTiling | el_malloc.c:102-112 | on a tiled heap el_block_below of block k is block k - 1, and NULL for the first block |
| Layout.BelowOfAbove | el_malloc.c:85-112 | el_block_below(el_block_above(b)) == b whenever a block lies above b |
| Layout.SplitSizesOnly | el_malloc.c:249-270 | the split writes sizes only: states and links are kept everywhere; the block gets the requested size; the new header is el_block_above of the block; the two footprints add up to the old one |
| Layout.TilesSplit | el_malloc.c:249-270 | splitting a block with room for n plus one overhead keeps a tiling, with the remainder header strictly inside the heap and not an existing block |
| Layout.TilesMerge | el_malloc.c:308-329 | giving block k the merged size, with the footer of block k + 1 repeating it, keeps a tiling with block k + 1 gone; block k now ends where block k + 1 ended |
| BlockLists.LinkFrontOk | el_malloc.c:193-203 | el_add_block_front puts the block first, keeps the other members linked in the same order, grows length by 1 and bytes by size + EL_BLOCK_OVERHEAD, leaves the other list and every size and state alone |
| BlockLists.UnlinkOk | el_malloc.c:208-216 | el_remove_block drops the block, keeps the other members linked in the same order, shrinks both counters by the same amounts, leaves the other list and every size and state alone |
| HeapSteps.InitListsOk | el_malloc.c:175-188 | two el_init_blocklist calls give two well-formed, disjoint, empty lists with zero counters |
| HeapSteps.RemoveKeeps | el_malloc.c:208-216 | el_remove_block on a list member keeps both lists well formed and disjoint and keeps every size and state; that list's counters shrink by one footprint |
| HeapSteps.AddFrontKeeps | el_malloc.c:193-203 | el_add_block_front of a block on neither list keeps both lists well formed and disjoint and keeps every size and state; that list's counters grow by one footprint |
| HeapSteps.FirstAvailWalk | el_malloc.c:225-239 | the search loop started at member j, with the matching number of iterations left, returns the first fitting member from j on, or NULL |
| HeapSteps.FindFirstAvailSpec | el_malloc.c:225-239 | on well-formed lists el_find_first_avail returns the first member of the available list, in list order, whose size is at least n + EL_BLOCK_OVERHEAD, and NULL when none qualifies |
| HeapState.FirstFitFrom | el_malloc.c:231-237 | the position found is the first from j on whose block fits; no block before it fits |
| HeapSteps.SplitKeeps | el_malloc.c:249-270 | on a block with room, the split keeps the lists and the tiling; the remainder is at b + n + EL_BLOCK_OVERHEAD, right after b; b has size n and the remainder the old size - n - EL_BLOCK_OVERHEAD; states and counters are unchanged |
| HeapSteps.CarveKeeps | el_malloc.c:285-287 | removing a fitting available block and splitting it keeps the lists and the tiling and gives both parts the sizes above |
| HeapSteps.MergeLists | el_malloc.c:308-329 | merging two available neighbours leaves well-formed lists; lower heads the available list; available length falls by 1 while available bytes stay the same; the used list is unchanged |
| HeapSteps.MergeTiles | el_malloc.c:308-329 | merging keeps the tiling with the upper block gone, lower gets size lower + above + EL_BLOCK_OVERHEAD, and no state tag changes |
| HeapSteps.FreeRelinkKeeps | el_malloc.c:343-345 | moving a used block to the available list keeps both lists well formed; the block is available and first on its new list; the counters move by its footprint |
| HeapOps.InitSpec | el_malloc.c:25-49 | el_init records the heap bounds; it returns -1, changing nothing else, exactly when heap_bytes < EL_BLOCK_OVERHEAD, and 0 otherwise |
| HeapOps.InitValid | el_malloc.c:35-48 | when el_init succeeds on a heap above NULL, the heap is valid and is one available block of size heap_bytes - EL_BLOCK_OVERHEAD, the only member of the available list; the used list is empty; avail.bytes == heap_bytes |
| HeapOps.MallocAt | el_malloc.c:277-295 | when the first fitting available block is block q, el_malloc hands that block out (HandsOut) and the heap stays valid |
| HeapOps.MallocHit | el_malloc.c:277-295 | when some available block fits, el_malloc hands out the first fitting one in list order |
| HeapOps.MallocSpec | el_malloc.c:277-295 | on a valid heap: on a miss el_malloc returns NULL and changes nothing; on a hit it returns header + sizeof(el_blockhead_t) for the first fitting block, which becomes used with size n at the front of the used list; the remainder above it is available at the front of the available list; the available length is unchanged and the used length grows by 1; the heap stays valid and avail.bytes + used.bytes == heap_bytes |
| HeapOps.MallocNullIff | el_malloc.c:277-283 | el_malloc returns NULL exactly when no available block has size at least n + EL_BLOCK_OVERHEAD |
| HeapOps.MergeKeeps | el_malloc.c:308-329 | merging available block k with available block k + 1: block k + 1 disappears; block k gets both payloads plus the reclaimed overhead and heads the available list; available length falls by 1 while available bytes, the used list and every state stay the same; the heap stays sound |
| HeapOps.MergeNothing | el_malloc.c:309-312 | el_merge_block_with_above changes nothing when the lower block itself is not available, or when the block above it is missing or not available |
| HeapOps.MergeNull | el_malloc.c:309-312 | on NULL the model's merge takes the `lower == NULL` early return at line 310 and changes nothing (the C reads through NULL at line 86, inside el_block_above, before that test; the model's memory reads a zero record there); el_free never passes NULL, since line 349 guards the call, and the lemma only lets that guard be folded into an unconditional merge |
| HeapOps.MergeAbsorbs | el_malloc.c:313-328 | when blocks k and k + 1 are both available, the merge drops block k + 1 from the heap; block k then reaches the end of block k + 1 and heads the available list; the available list no longer holds block k + 1; no state changes |
| HeapOps.FreeRelinkSound | el_malloc.c:343-345 | the relinking of a used block keeps the heap sound; the block becomes available; every other state and every other adjacent pair is kept |
| HeapOps.NeighboursKept | el_malloc.c:344 | retagging the freed block leaves the availability of its neighbours unchanged |
| HeapOps.FreeAboveSound | el_malloc.c:347 | the merge with the block above keeps the heap sound |
| HeapOps.FreeAboveCoalesced | el_malloc.c:347 | after the merge with the block above, the freed block is still in place and available, and no two adjacent blocks other than the freed block and the block below it are both available |
| HeapOps.FreeAboveShape | el_malloc.c:347 | the heap loses one block exactly when the block above was available; the freed block and every block below it stay where they were |
| HeapOps.AbsorbAbove | el_malloc.c:347 | this merge, on the freed block at the head of the available list, drops the blocks after it up to `hi`, meaning the block above if it is available and the freed block itself otherwise; the freed block then reaches the end of block `hi`; block `hi` leaves the available list; no state changes |
| HeapOps.AbsorbBelow | el_malloc.c:349-351 | the merge of the block below drops the blocks after `lo` up to the freed block, where `lo` is the block below if it is available and the freed block itself otherwise; block `lo` is available, reaches the end of the freed block and heads the available list, and the freed block leaves that list; no state changes |
| HeapOps.FreeAboveAbsorbs | el_malloc.c:343-347 | after the relink and the merge above, the freed block is available at the head of the available list and reaches the end of block `hi`; the blocks after it up to `hi` are gone; the block below keeps its availability |
| HeapOps.FreeShape | el_malloc.c:335-353 | freeing used block q leaves the layout `Absorbs` states. Blocks lo + 1 to hi, where lo and hi are the lowest and highest of block q and its available neighbours, disappear into block lo. Block lo is available, ends where block hi ended, and heads the available list. That list continues with the old one minus the absorbed neighbours. Only block q changes state |
| HeapOps.FreeAboveCounts | el_malloc.c:347 | the available length falls by 1 exactly when the block above was available; available bytes and the used list stay the same |
| HeapOps.FreeBelowValid | el_malloc.c:340-351 | the merge of the block below with the freed block makes the heap valid again |
| HeapOps.FreeBelowCounts | el_malloc.c:340-351 | the heap and the available list lose one block exactly when the block below was available; available bytes and the used list stay the same |
| HeapOps.FreeUsed | el_malloc.c:335-353 | freeing a used block keeps the heap valid and releases it, as `Releases` states. The block leaves the used list, whose counters lose its footprint, and available bytes grow by that footprint. One block is lost per available neighbour. The block and its available neighbours become one available block at the head of the available list (the `Absorbs` layout) |
| HeapOps.FreeSpec | el_malloc.c:335-353 | on a valid heap and the payload of one of its blocks, el_free of an available block changes nothing. A used block is released, with the counters and the merged layout that `Releases` states. Either way the heap stays valid and avail.bytes + used.bytes == heap_bytes |
| HeapState.WrapAdmitsSmallBlock | el_malloc.c:232-250 | with the size_t addition as written, a request within EL_BLOCK_OVERHEAD of SIZE_MAX passes the fit test on blocks smaller than the request |
| HeapState.WrapExample | el_malloc.c:232 | el_malloc(SIZE_MAX) finds a 64-byte available block fitting under the guard as written, though it does not fit |
| HeapState.FitsAgree | el_malloc.c:232-250 | for requests where the sum does not wrap, the guard as written and the intended guard agree |
| ElMalloc.Heap.constructor | el_malloc.c:13 | control record and memory start all zero |
| ElMalloc.Heap.InitBlocklist | el_malloc.c:175-188 | the stores of el_init_blocklist reach InitBlocklistMem |
| ElMalloc.Heap.InitBlocklists | el_malloc.c:35-38 | the two el_init_blocklist calls reach InitBlocklistMem applied twice |
| ElMalloc.Heap.Init | el_malloc.c:25-49 | the stores of el_init reach InitMem; the result is 0 exactly when heap_bytes >= EL_BLOCK_OVERHEAD; on success above NULL the heap is valid, with one available block and an empty used list |
| ElMalloc.Heap.FirstBlock | el_malloc.c:42-48 | the first-block stores of el_init reach their value-model counterpart |
| ElMalloc.Heap.AddBlockFront | el_malloc.c:193-203 | the stores of el_add_block_front reach AddBlockFrontMem |
| ElMalloc.Heap.RemoveBlock | el_malloc.c:208-216 | the stores of el_remove_block reach RemoveBlockMem |
| ElMalloc.Heap.FindFirstAvail | el_malloc.c:225-239 | the loop computes FindFirstAvailMem and changes nothing; on well-formed lists it returns the first fitting member of the available list, or NULL |
| ElMalloc.Heap.SplitBlock | el_malloc.c:249-270 | the stores of el_split_block reach SplitBlockMem, NULL-return path included |
| ElMalloc.Heap.Malloc | el_malloc.c:277-295 | the calls and stores of el_malloc reach MallocMem; on a valid heap the heap stays valid and balanced |
| ElMalloc.Heap.MergeWithAbove | el_malloc.c:308-329 | the stores of el_merge_block_with_above reach MergeMem, no-op path included |
| ElMalloc.Heap.Free | el_malloc.c:335-353 | the calls and stores of el_free reach FreeMem; on a valid heap and a block's payload the heap stays valid and balanced |

## Left out

- The `mmap` call and its `assert` in `el_init` (el_malloc.c:21-23) are left out. `el_init` is modelled from the point after the mapping, with `heap_start` and `heap_bytes` as parameters in place of `EL_HEAP_START_ADDRESS` and `EL_HEAP_INITIAL_SIZE`, which are defined in `el_malloc.h`.
- `el_cleanup` is left out: it is an `munmap` OS call plus two field resets.
- `el_print_blocklist`, `el_print_stats` and the `fprintf` in `el_init` are left out: they only produce output.
- Payload bytes are not modelled, only header and footer records. Headers and footers are two separate maps, so a header record overlapping a footer record at the same address is not modelled. This can only happen for records that are no longer reachable after a merge.
- Pointer casts and `PTR_PLUS_BYTES`/`PTR_MINUS_BYTES` become integer arithmetic on addresses. Sizes are unbounded integers, apart from the size_t wrap in the fit test, which is stated and shown under Findings.
- The model's fit test is the intended one, `HeapState.Fits`. The guard as written is `HeapState.FitsAsWritten`, which agrees with it except for requests within `EL_BLOCK_OVERHEAD` of `SIZE_MAX`.
- The C code dereferences `block` in `el_split_block` and `lower` in `el_merge_block_with_above` before testing them for NULL. Memory here is total: a read of an unwritten address yields a zero record. So the model follows the source's order of tests without a crash path. On valid heaps neither function is called with NULL.
- HeapOps.FreeSpec requires the pointer to be the payload of a current block of a valid heap. Freeing any other pointer, a double free of a block that has since been merged away, and use after free are unchecked in the source and outside the model.
- The ghost bookkeeping has no C counterpart: the blocks in address order and the members of each list. It names what the pointers describe.
- There is no concurrency: the allocator is single-threaded.

## Findings

| source | as written | input that shows it | evidently intended | confidence | as-written member | corrected member |
|---|---|---|---|---|---|---|
| el_malloc.c:232-250 | `start->size >= (size+EL_BLOCK_OVERHEAD)` and `block->size < new_size + EL_BLOCK_OVERHEAD` add in 64-bit size_t, which wraps | `el_malloc(SIZE_MAX)` with a 64-byte available block: SIZE_MAX + 40 wraps to 39, so the block is chosen and split for a request far beyond its size | a block fits only when its size is at least the request plus EL_BLOCK_OVERHEAD, without wrap-around; with that test el_malloc keeps the heap valid (HeapOps.MallocSpec) | not executed | HeapState.WrapExample | HeapState.Fits |
