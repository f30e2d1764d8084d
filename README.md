# ddo_heap block tracker in Dafny

ddo_heap is a fixed-capacity first-fit allocator for embedded targets. An
arena of `HEAP_TOTAL_SIZE` bytes is split into `HEAP_BLOCK_COUNT` blocks of
`HEAP_BLOCK_SIZE` bytes. The allocation state lives outside the arena, in
`Heap_t.pages`: one byte per page of four blocks. Each block has two bits in
its page byte: "allocated" at bit `2*slot` and "has next" at bit `2*slot+1`.
"Has next" means the following block belongs to the same chunk. A chunk is a
run of allocated blocks linked by "has next". The caller's handle for a chunk
is the address of its first block.

The project models that tracker.

- `bitmap.dfy` (module `Bitmap`) holds the header's constants and masks. It
  also defines the block view: `View` turns the page bytes into a
  `seq<BlockFlags>` with one entry per block.
- `chunks.dfy` (module `Chunks`) says what each operation means on that view:
  - `BlocksFor` is the rounded-up block count.
  - `BlockNumber` is `block_number_by_addr`.
  - `FirstFit` is the placement the allocation scan must find.
  - `Marked` and `Erased` are the two modes of `set_allocation_state`.
  - `ChunkBlocks` is the chain walk of `heap_block_size`.
  - `FreeCount` is the count of `heap_available_space`.
  - The lemmas relate these: chunk shape, free-space accounting, the
    invariant every operation keeps, and alloc/free/truncate interplay.
- `heap.dfy` (module `DdoHeap`) is `Heap_t` as a class.
  - `pages` is an `array<bv8>` updated in place with `|=` and `&= ~` on the
    slot masks, inside the same nested page/slot loops as the C code.
  - Each method is proved against the `Chunks` function it implements,
    through the ghost view `Blocks()`.
- `scenarios.dfy` (module `HeapTests`) replays the four unit tests. Each test
  method's `ensures` states the values the test asserts.

## Model

| member | source | states |
|---|---|---|
| Bitmap.DefaultConfiguration | ddo_heap.h:41-49 | 64-byte blocks in an 8192-byte arena give 128 blocks tracked by 32 page bytes (`HEAP_BLOCK_COUNT`, `HEAP_PAGE_COUNT`, ddo_heap.h:67-68) |
| Bitmap.MaskLayout | ddo_heap.h:70-72 | The slot masks are the macros' shifts of 0x01, 0x02 and 0x03 by twice the slot; ALL_BITS is the bitwise OR of ALLOCATED and HAS_NEXT; the two flag bits of one slot are disjoint |
| Bitmap.BlockCount | ddo_heap.h:49 | `HEAP_BLOCK_COUNT` is the number of whole blocks in the arena: c blocks fit in `TOTAL_SIZE` and c + 1 do not |
| Bitmap.PageCount | ddo_heap.h:67-68 | `HEAP_PAGE_COUNT` is the number of whole pages of four blocks: p pages fit in `HEAP_BLOCK_COUNT` blocks and p + 1 do not, so up to three trailing blocks have no page |
| Bitmap.AllocatedBit | ddo_heap.h:70 | The ALLOCATED mask of each slot; `MaskLayout` proves it is `0x01 << 2*slot` |
| Bitmap.HasNextBit | ddo_heap.h:71 | The HAS_NEXT mask of each slot; `MaskLayout` proves it is `0x02 << 2*slot` |
| Bitmap.AllBits | ddo_heap.h:72 | The ALL_BITS mask of each slot; `MaskLayout` proves it is `0x03 << 2*slot` and the OR of the other two |
| Bitmap.SlotFlags | ddo_heap.c:107 | The two tests `page_raw & BIT_BLOCK_ALLOCATED(iBlock)` and `page_raw & BIT_BLOCK_HAS_NEXT(iBlock)` (also at ddo_heap.c:191, 217); `SlotBitPositions` states which bits they read |
| Bitmap.SlotBitPositions | ddo_heap.h:78-85 | Slot s is allocated exactly when bit 2*s of its page byte is set, and has a successor exactly when bit 2*s+1 is set, as the bitfield layout of `Page_t` documents |
| Bitmap.PagesView | ddo_heap.c:244 | The page bytes read as one entry per slot, four per page, in page order |
| Bitmap.View | ddo_heap.c:186 | One entry per tracked block, `4 * HEAP_PAGE_COUNT` in all, numbered `iPage*4 + iBlock` as the loops number them (`ViewAt` gives the entry of block b) |
| Bitmap.SlotsPartitionByte | ddo_heap.h:70-85 | Masks of distinct slots share no bit, and the four slots' masks cover the whole byte (bits 0-7, as the `Page_t` layout lists them) |
| Bitmap.ByteFromSlots | ddo_heap.h:74-90 | A page byte is determined by the flags of its four slots |
| Bitmap.BlockLocation | ddo_heap.c:177-186 | Block index b and the pair (page b / 4, slot b % 4) determine each other |
| Bitmap.ViewAt | ddo_heap.c:186 | Block b of the view holds the flags of slot b % 4 of page byte b / 4 |
| Bitmap.FlagsInPage | ddo_heap.c:244 | Slot `iBlock` of page `iPage` holds the flags of block `iPage*4 + iBlock`, which is tracked |
| Bitmap.UsedInPage | ddo_heap.c:107 | The ALLOCATED test on slot `iBlock` of page `iPage` is true exactly when tracked block `iPage*4 + iBlock` is marked used |
| Bitmap.ViewInjective | ddo_heap.h:94-99 | Page arrays of the same length with the same block view are equal, so the view loses nothing |
| Bitmap.SetAllBits | ddo_heap.c:250 | OR-ing `ALL_BITS(slot)` into the page byte makes the slot allocated with a successor and leaves the other three slots' flags unchanged |
| Bitmap.SetLastBits | ddo_heap.c:250-253 | OR-ing `ALL_BITS` then `&= ~HAS_NEXT` makes the slot allocated without a successor; other slots unchanged |
| Bitmap.ClearAllBits | ddo_heap.c:265 | `page &= ~ALL_BITS(slot)` frees the slot; other slots unchanged |
| Bitmap.WriteSlot | ddo_heap.c:250-265 | Writing a page byte that keeps three slots' flags changes exactly one block of the view |
| Bitmap.SetSlotInView | ddo_heap.c:250 | In the view, the OR-write sets exactly block `4*page+slot` to allocated with a successor |
| Bitmap.SetLastSlotInView | ddo_heap.c:250-253 | In the view, the two writes on the last block set exactly that block to allocated without a successor |
| Bitmap.ClearSlotInView | ddo_heap.c:265 | In the view, the AND-write frees exactly block `4*page+slot` |
| Bitmap.ZeroPagesAreFree | ddo_heap.c:88 | All-zero page bytes mean every tracked block is free |
| Chunks.BlocksFor | ddo_heap.c:93 | The block count for n bytes is 0 exactly when n is 0 |
| Chunks.BlocksForIsCeiling | ddo_heap.c:93 | `n/BS + (n%BS ? 1 : 0)` is the least block count whose bytes cover n |
| Chunks.BlocksForWithin | ddo_heap.c:158-161 | A byte count below a chunk of L blocks needs at most L blocks, and exactly L iff it exceeds L-1 whole blocks |
| Chunks.BlockNumber | ddo_heap.c:278-282 | The block number is a uint32 (below 2^32) |
| Chunks.BlockNumberContains | ddo_heap.c:278-282 | An address at or above the base maps to the block whose bytes contain it |
| Chunks.BlockAddress | ddo_heap.c:124 | The address returned for block k is at or above the base, hence never null |
| Chunks.BlockNumberOfBlockAddress | ddo_heap.c:124 | `block_number_by_addr` maps the address of block k back to k |
| Chunks.TrackedBlockAddress | ddo_heap.c:141-143 | The address of a tracked block lies inside `[base, base + TOTAL_SIZE)`, so `heap_free`'s range test accepts it, and `block_number_by_addr` maps it back to the block |
| Chunks.ArenaEndIsUntracked | ddo_heap.c:141 | The inclusive end address `base + TOTAL_SIZE` that `heap_free` accepts maps to block `HEAP_BLOCK_COUNT`, past every tracked block (ddo_heap.c:237-240) |
| Chunks.FirstFitFrom | ddo_heap.c:101-127 | The result starts a free run at or after k, and no free run starts between k and it; None means none starts at or after k |
| Chunks.FirstFit | ddo_heap.c:101-127 | Some iff a free run of m blocks exists; the result is a free run and no earlier start is one (first fit) |
| Chunks.FirstFitIs | ddo_heap.c:118-124 | A free run with no earlier free run is the first-fit result |
| Chunks.FirstFitNone | ddo_heap.c:127-133 | With no free run of m blocks, first fit finds nothing |
| Chunks.ZeroBlockRequest | ddo_heap.c:93-124 | A zero-block request is placed at block 0 whatever its state, and marking zero blocks changes nothing |
| Chunks.Marked | ddo_heap.c:247-257 | Blocks [first, first+count) become allocated, each with a successor except the last; every other block keeps its flags |
| Chunks.Erased | ddo_heap.c:259-271 | Blocks from first through the end of its chain become free; nothing else changes, and nothing at all when first is untracked |
| Chunks.ChainEnd | ddo_heap.c:182-198 | The chain from k ends at the first block with no successor, or at the last tracked block |
| Chunks.ChunkBlocks | ddo_heap.c:172-203 | The chain walk counts at most every tracked block, and counts 0 exactly when the start block is untracked |
| Chunks.ChainEndAt | ddo_heap.c:191-195 | The walk stops at a block whose HAS_NEXT is clear when all blocks before it are linked |
| Chunks.ChainEndBeyond | ddo_heap.c:182-198 | A chain whose blocks k..c-1 all have a successor reaches block c |
| Chunks.FreeCount | ddo_heap.c:205-227 | The free count is at most the number of blocks |
| Chunks.FreeCountSnoc | ddo_heap.c:217-220 | Counting one more block adds 1 exactly when it is free |
| Chunks.ChunkBlocksOfChunk | ddo_heap.c:172-203 | The walk from the start of a chunk of m blocks ends at its last block: size m |
| Chunks.MarkedIsChunk | ddo_heap.c:247-257 | Committing m >= 1 blocks at k yields a chunk of exactly m blocks at k |
| Chunks.AllocatedSize | ddo_heap.c:93-124 | The chunk committed for n >= 1 bytes reports `ceil(n/BS)` blocks, the fewest whose bytes cover n (13 bytes -> 1 block, 85 -> 2) |
| Chunks.AllocatedAddressSize | ddo_heap.c:172-202 | Walking the chain from the address `heap_alloc` returns for n >= 1 bytes counts `ceil(n/BS)` blocks, whose bytes are at least n and less than n + BS |
| Chunks.MarkedWellFormed | ddo_heap.c:247-257 | Committing a run inside the tracked blocks keeps the invariant: free blocks and the last block have no successor |
| Chunks.ErasedWellFormed | ddo_heap.c:259-271 | Erasing from any block keeps the invariant |
| Chunks.ErasedChunk | ddo_heap.c:259-271 | Erasing from the start of a chunk of m blocks frees exactly those m blocks |
| Chunks.FreeUndoesAlloc | ddo_heap.c:148 | Freeing a chunk right after committing it on a free run restores the state exactly |
| Chunks.AllocKeepsChunk | ddo_heap.c:247-257 | Committing a free run cannot overlap an existing chunk and leaves it in place |
| Chunks.FreeKeepsChunk | ddo_heap.c:259-271 | Freeing one chunk leaves every non-overlapping chunk in place |
| Chunks.TruncateShape | ddo_heap.c:156-170 | Truncating a chunk of l blocks to m <= l: the first m stay one chunk (none for m = 0), the other l-m become free, the rest is unchanged; m = l changes nothing |
| Chunks.FreeCountAppend | ddo_heap.c:205-227 | The free count of a concatenation is the sum of the parts' counts |
| Chunks.FreeCountAllFree | ddo_heap.c:217-220 | A run of free blocks counts all its blocks |
| Chunks.FreeCountNoneFree | ddo_heap.c:217-220 | A run of allocated blocks counts none |
| Chunks.FreeCountSplice | ddo_heap.c:205-227 | Views that agree outside [lo, hi) differ in free count only by what differs inside it |
| Chunks.FreeCountAfterAlloc | ddo_heap.c:118-124 | Committing a free run of m blocks removes exactly m free blocks |
| Chunks.FreeCountAfterFree | ddo_heap.c:136-152 | Freeing a chunk of m blocks adds exactly m free blocks |
| Chunks.FreeCountAfterTruncate | ddo_heap.c:156-170 | Truncating a chunk of l blocks to m frees exactly l - m blocks |
| DdoHeap.ScanStep | ddo_heap.c:105-125 | One step of the allocation scan keeps the meaning of `first_block`/`free_blocks`; when the run reaches m blocks it is the first fit |
| DdoHeap.ScanDone | ddo_heap.c:127-133 | A scan that ends without a run of m blocks proves there is none |
| DdoHeap.AgreesStep | ddo_heap.c:240-275 | Writing block c's target flags moves the written/unwritten boundary one block on |
| DdoHeap.AgreesSkip | ddo_heap.c:245-247 | A block whose target flags equal its current ones needs no write |
| DdoHeap.AgreesAll | ddo_heap.c:240-275 | Past the last tracked block, the page view is the target view |
| DdoHeap.MarkedDone | ddo_heap.c:251-256 | Once the run's last block is written, the view is the marked view |
| DdoHeap.EraseStep | ddo_heap.c:259-271 | A block on the chain from first becomes free, and the chain goes on past it iff it has a successor |
| DdoHeap.ErasedDone | ddo_heap.c:267-271 | Once a block without a successor is erased, the view is the erased view |
| DdoHeap.MarkSlot | ddo_heap.c:250 | The OR-write on a non-last block of the run writes its marked flags |
| DdoHeap.WriteTwice | ddo_heap.c:250-253 | A second write to the same page byte replaces the first |
| DdoHeap.MarkLast | ddo_heap.c:250-256 | The two writes on the run's last block complete the marked view |
| DdoHeap.EraseSlot | ddo_heap.c:263-271 | The AND-write frees a chain block; HAS_NEXT read before the write decides whether the erased view is complete or the chain continues |
| DdoHeap.Heap.constructor | ddo_heap.c:85-89 | A tracker over `base` with every block free and the invariant established |
| DdoHeap.Heap.Init | ddo_heap.c:85-89 | Records the base and zeroes every page byte, so every block is free |
| DdoHeap.Heap.Alloc | ddo_heap.c:91-134 | Returns null iff no run of `ceil(n/BS)` free blocks exists, leaving the pages untouched; otherwise returns the first-fit block's address and the pages become exactly `Marked`; the invariant is kept |
| DdoHeap.Heap.FindRun | ddo_heap.c:101-127 | The nested scan finds a run iff one exists, and the run it stops at is the first fit |
| DdoHeap.Heap.Free | ddo_heap.c:136-152 | Inside `[base, base + TOTAL_SIZE]` the pages become exactly `Erased` at the address's block; any other address changes nothing |
| DdoHeap.Heap.Truncate | ddo_heap.c:156-170 | When the chunk holds more than n bytes it becomes `Marked(Erased(v, b), b, ceil(n/BS))`; otherwise nothing changes |
| DdoHeap.Heap.BlockSize | ddo_heap.c:172-203 | Returns the chain length from the address's block times the block size |
| DdoHeap.Heap.ChainLength | ddo_heap.c:174-198 | The nested walk counts exactly `ChunkBlocks` blocks, stopping at the first block with HAS_NEXT clear |
| DdoHeap.Heap.AvailableSpace | ddo_heap.c:205-227 | Returns the number of free blocks times the block size |
| DdoHeap.Heap.CountFree | ddo_heap.c:209-222 | The nested loops count exactly the tracked blocks whose ALLOCATED bit is clear |
| DdoHeap.Heap.AllocThenFree | ddo_heap.c:136-152 | `heap_free` of the address `heap_alloc` just returned for n >= 1 bytes restores every block's flags, so the available space is back too; after a failed request, freeing the null address changes nothing |
| DdoHeap.Heap.AllocThenSize | ddo_heap.c:172-202 | `heap_block_size` of a non-null address `heap_alloc` just returned for n >= 1 bytes is `ceil(n/BS) * BS`, at least n and less than n + BS |
| DdoHeap.Heap.MarkBlock | ddo_heap.c:247-257 | One allocating step writes the block's marked flags, and reports the end exactly on the run's last block, when the view is `Marked` |
| DdoHeap.Heap.EraseBlock | ddo_heap.c:259-271 | One erasing step frees the block and stops exactly when its HAS_NEXT was clear, when the view is `Erased` |
| DdoHeap.Heap.SetAllocationState | ddo_heap.c:233-276 | Allocating: the view becomes `Marked(first, count)`; erasing: it becomes `Erased(first)` |
| HeapTests.FirstHole | ddo_heap.c:101-125 | A free run preceded only by allocated blocks is where first fit places the request |
| HeapTests.FreshLayout | ddo_heap.c:88 | An all-free tracker has every block free |
| HeapTests.BumpAlloc | test_ddo_heap.cpp:19-21 | On a layout packed up to block k, a request of m blocks goes to k, becomes a chunk there and takes m free blocks |
| HeapTests.TooBig | test_ddo_heap.cpp:71 | On a layout packed up to block k, a request for more blocks than remain fails |
| HeapTests.NullIsUntracked | test_ddo_heap.cpp:79 | With the buffer at least one block above address 0 and inside 32-bit space, null maps to no tracked block, so its size is 0 |
| HeapTests.NullIsBlockZero | ddo_heap.c:278-282 | With the buffer below address 64, null maps to block 0 |
| HeapTests.NewHeap | test_ddo_heap.cpp:15-17 | A fresh default heap: 128 free blocks |
| HeapTests.AllocNext | test_ddo_heap.cpp:19-21 | A request on a packed layout returns block k's address and commits a chunk of m blocks there |
| HeapTests.SizeAt | test_ddo_heap.cpp:58-61 | `heap_block_size` at a chunk's address returns its m blocks' bytes |
| HeapTests.AllocAndFree | test_ddo_heap.cpp:13-40 | Addresses at blocks 0, 3, 6; after freeing the middle one, the same request reuses block 3, and the next goes to 9; available space 8192-576, 8192-384, 8192-768 |
| HeapTests.FreeAndRefill | test_ddo_heap.cpp:25-30 | Freeing the chunk at block 3 gives back its three blocks, and the next three-block request fills exactly that hole |
| HeapTests.IrregularAllocSize | test_ddo_heap.cpp:42-62 | Requests of 128, 13, 85 and 192 bytes land at blocks 0, 2, 3 and 5 with sizes 128, 64, 128 and 192 |
| HeapTests.BigAllocFail | test_ddo_heap.cpp:64-81 | A whole-arena request returns null and changes nothing; the next request lands at block 2; sizes 128, 0 (for null) and 192 |
| HeapTests.TruncateBlock | test_ddo_heap.cpp:83-107 | Blocks 0 and 1 with sizes 64 and 320; after truncating to 128 the size is 128 and later requests land at blocks 3 and 5 |
| HeapTests.TruncateToTwo | test_ddo_heap.cpp:98-100 | Truncating the five-block chunk at block 1 to two blocks leaves the layout packed up to block 3 and reports 128 bytes |

## Left out

- The global-instance wrappers `heap_init` … `heap_available_space` over `g_heap0` (ddo_heap.c:47-79) are one-line delegations. The model's `Heap` methods take the instance instead.
- `RTOS_CRITICAL_ENTER/EXIT` are left out. They are concurrency hooks, and the model is sequential.
- `LOG_DEBUG` tracing is left out. It is output only.
- The `b` bitfield view of `Page_t` (ddo_heap.h:76-86) is left out. Its layout is implementation-defined, and the code only uses `page_raw`.
- The arena's byte contents are left out. The tracker never reads or writes them.
- Addresses are integers. `base > 0` is required so that 0 stays the null pointer.
- The pointer difference in `block_number_by_addr` is modelled as truncating division, then a wrap into uint32. For addresses below the base, C leaves that undefined.
- `HeapTests.BigAllocFail`: its size-of-null result relies on the buffer lying at least 64 bytes above address 0 and inside the 32-bit address space. With a buffer below address 64, null maps to block 0 (`HeapTests.NullIsBlockZero`), and `heap_block_size(NULL)` would report that chunk's size.
- `DdoHeap.Heap.Alloc`: `n` is an unbounded natural, not a uint32. Below 2^32 the block count is the same.
- The configuration is a set of constructor parameters, not compile-time constants. The model requires a non-zero block size and at least one page byte; C needs both for the division and the array.
- The total size below 2^32 is a restriction of the model, not of C. With a larger arena the uint32 products `block_count * HEAP_BLOCK_SIZE` (ddo_heap.c:202) and `free_block_count * HEAP_BLOCK_SIZE` (ddo_heap.c:226) could wrap, and the model does not capture that wrap: `BlockSize` and `AvailableSpace` return the exact product.
- Blocks past `4 * HEAP_PAGE_COUNT` are not tracked when the block count is not a multiple of 4. The model says so by sizing the view from the page bytes.
- The loop exit `iPage = HEAP_PAGE_COUNT; break;` (ddo_heap.c:193-194) is a `return` in the model. In `heap_block_size_impl` the multiplication `block_count * HEAP_BLOCK_SIZE` (ddo_heap.c:202) follows the loops; the model keeps it by returning from the split-out walk `ChainLength` and multiplying in `BlockSize` afterwards.
- The allocating and erasing branches of `set_allocation_state`'s loop body are split out as `MarkBlock` and `EraseBlock`. The scan of `heap_alloc_impl` is split out as `FindRun`. The chain walk of `heap_block_size_impl` is split out as `ChainLength`, and the counting loops of `heap_available_space_impl` as `CountFree`. Each runs the same statements in the same order as its C counterpart.
- Misuse is modelled but not promised about: free, truncate or size on a mid-chunk or never-allocated address. Such calls walk the chain from that block exactly as the C code does. The only promise is that the invariant is kept.
