# A verified model of the memory_allocator heap engine

`src/mem.c` is a free-list allocator over one contiguous region of memory.
Each block starts with a 16-byte header:

- a free block's header holds its size and a `next` link;
- an allocated block's header holds its size and a guard word;
- an allocated block repeats the guard in its last 8 bytes.

The guard is the block's address XOR the secret `0xDEADBEEFFEEDFACE`. The
free list links the free blocks in ascending address order. `insert_block`
keeps touching free blocks fused, so no two free blocks on the list are
adjacent.

The allocator picks a block by first, best or worst fit. It splits the
block only when more than 24 bytes would be left over. It frees with
coalescing. It reallocates in place when it can:

- a shrink gives the tail to a free right neighbour, carves a new free
  block, or keeps the block as it is;
- a growth absorbs the free right neighbour whole or takes its head.

Otherwise it allocates a new block, copies the bytes and frees the old one.

The model fixes the LP64 layout: both headers 16 bytes, guard 8 bytes,
split threshold 16 + 8 = 24. Offsets are relative to the region start
`base`. A client pointer is `base + offset + 16`.

## Modules

- `block.dfy` (module `Block`):
  - the constants;
  - `Option`, the abort outcomes and the lines `mem_show` prints;
  - `size_t` subtraction, bytes of a word, XOR and the guard value;
  - the byte sequences a block holds.
- `layout.dfy` (module `Layout`): the region as a map from header offset to
  size word, `Tiles` (the blocks cover the region back to back), and
  splitting and fusing blocks.
- `freelist.dfy` (module `FreeList`):
  - the free list as a sequence of offsets: `Listed` (sorted headers) and
    `Ordered` (also no two touching);
  - the slot `search_block` stops at, and the loop that finds it;
  - `remove_block` and `insert_block` with its four fusing cases;
  - the header changes of `mem_alloc` and of the in-place paths of
    `mem_realloc`;
  - the proofs that each keeps the list ordered and the region tiled, and
    that freeing undoes an allocation exactly.
- `fit.dfy` (module `Fit`): the three fit strategies. Each is a loop proved
  against a predicate that states the choice.
- `resize.dfy` (module `Plans`): the path `mem_realloc` takes for a block,
  a request and its right neighbour, and the size the block ends with.
- `allocator.dfy` (module `Allocator`):
  - class `Heap` with the allocator's state: the free list, every header's
    size word, the allocated blocks' guards and client bytes, the strategy
    and the secret;
  - methods for `mem_init`, `mem_set_fit_handler`, `mem_alloc`, `mem_free`,
    `mem_get_size`, `mem_show` and `mem_realloc`, each proved to keep the
    heap `Valid()`;
  - `Consistent`: the headers tile the region, the free list is ordered,
    and every header that is not free is an allocated block whose bytes
    fill it.
- `findings.dfy` (module `Findings`): two places where `mem.c` as written
  departs from what its code evidently intends (see Findings).

Client bytes the allocator hands out without writing them (a fresh
block, the bytes a block gains when it grows in place, the tail of a
moved block past the copied bytes) hold whatever memory held. The
contracts fix only their number, the guard words around them and the
bytes kept or copied (`Granted`, `Refits`, `Takes`, `Moved`); the method
bodies happen to write zeros there, and nothing promised depends on it.
A client store into a block,
including one that overruns into the trailing guard, is `Heap.WriteByte`.
Guard checks that would trip a C `assert` are the `Aborted` status of
`Free` and the `Abort` outcome of `Realloc`.

## Model

| member | source | states |
|---|---|---|
| Block.SizeSub | src/mem.c:196 | The `size_t` difference is below 2^64 and equals a - b whenever b <= a (what `mem_show` prints as a block's size). |
| Block.CopiedOver | src/mem.c:435 | `memcpy` of src over the start of dst: the length is kept, the first \|src\| bytes are src's and the rest are dst's. |
| Block.Resized | src/mem.c:390-392 | A block's bytes resized to n: length n, and every byte that existed before keeps its value. |
| Layout.End | src/mem.c:280 | A block ends at least one header past its start. |
| Layout.Successor | src/mem.c:190 | In a tiled region the step from a block lands on another header or exactly on the region's end. |
| Layout.NoInnerHeader | src/mem.c:372 | In a tiled region no header lies strictly inside another block or past the end. |
| Layout.Carved | src/mem.c:124-125 | Splitting b to a bytes: b's size becomes a, and a header for the rest, of size size[b] - a - 16, appears at b + 16 + a. No other header changes. |
| Layout.Fused | src/mem.c:283 | Fusing c into b: b grows by 16 + size[c], c's header disappears, nothing else changes. |
| Layout.SplitTiles | src/mem.c:124-125 | Splitting a block keeps the region tiled. |
| Layout.FuseTiles | src/mem.c:308 | Fusing a block with the block right after it keeps the region tiled. |
| Layout.ShiftTiles | src/mem.c:464-465 | Moving the boundary between a block and the block after it keeps the region tiled. |
| FreeList.Slot | src/mem.c:328-335 | The slot for b: every entry before it is below b, and the entry at it, if any, is not. |
| FreeList.SearchBlock | src/mem.c:328-335 | The loop stops at the first entry not below b, or at the end, and that index is `Slot`. |
| FreeList.SlotSplits | src/mem.c:331 | In a sorted list every entry from b's slot on is at or above b. |
| FreeList.SlotOfEntry | src/mem.c:331 | Searching a sorted list for one of its own entries stops on that entry. |
| FreeList.RemoveTakesOne | src/mem.c:255-266 | `remove_block` removes exactly one copy of b when b is at the slot, and otherwise leaves the list as it was. |
| FreeList.Insert | src/mem.c:269-325 | `insert_block` creates no header; only b and free blocks can lose theirs (fused away); every other block keeps its size. |
| FreeList.InsertMembers | src/mem.c:269-325 | After freeing b, the free list holds exactly the surviving headers that were b or already free. |
| FreeList.InsertRightOnly | src/mem.c:280-285 | Fusing only on the right: b takes the right neighbour's place in the list and absorbs it. |
| FreeList.InsertLeftOnly | src/mem.c:305-310 | Fusing only on the left: the list is unchanged and the left neighbour absorbs b. |
| FreeList.InsertBoth | src/mem.c:280-310 | Fusing on both sides: the right neighbour's entry goes, and the left neighbour absorbs b and the right neighbour. |
| FreeList.InsertAlone | src/mem.c:286-322 | With neither neighbour touching, b is linked in at its slot and no size changes. |
| FreeList.Neighbours | src/mem.c:280-305 | The free block before b's slot ends at or before b, and the one at the slot starts at or after b's end. |
| FreeList.InsertPlainOrdered | src/mem.c:286-290 | A plain insertion keeps the list ordered and the region tiled. |
| FreeList.InsertRightOrdered | src/mem.c:280-285 | A right fuse alone keeps the list ordered and the region tiled. |
| FreeList.InsertLeftOrdered | src/mem.c:305-310 | A left fuse alone keeps the list ordered and the region tiled. |
| FreeList.InsertBothOrdered | src/mem.c:280-310 | A fuse on both sides keeps the list ordered and the region tiled. |
| FreeList.InsertKeepsOrder | src/mem.c:269-325 | Inserting any non-free block at its slot keeps the list sorted, with no two touching free blocks, and the region tiled. |
| FreeList.AllocatedBlock | src/mem.c:114-128 | The block handed out leaves the list and gets at least need bytes. When at most 24 bytes would be left it keeps its whole size; otherwise exactly need. The free list then holds exactly the old free blocks other than it plus the split-off rest. |
| FreeList.AllocKeepsOrder | src/mem.c:109-128 | `mem_alloc`'s header changes keep the list ordered and the region tiled. |
| FreeList.AllocSplitOrder | src/mem.c:124-127 | The split-off rest takes the chosen block's place in the list without breaking order or tiling. |
| FreeList.AllocReshapes | src/mem.c:109-128 | `mem_alloc` leaves the chosen block allocated and changes no other allocated block's header. |
| FreeList.FreeUndoesWhole | src/mem.c:153-161 | Freeing a block that was handed out whole restores the free list and every size exactly. |
| FreeList.FreeUndoesSplit | src/mem.c:153-161 | Freeing a block that was split off re-fuses the rest and restores the free list and every size exactly. |
| FreeList.FreeUndoesAlloc | src/mem.c:139-162 | Directly after `mem_alloc` took a block, `mem_free` of it restores the headers to what they were before. |
| FreeList.FuseUndoesCarve | src/mem.c:283 | Fusing the piece that was carved off a block gives back the original sizes. |
| FreeList.AllocatedBetween | src/mem.c:372-375 | An allocated block lies between the free blocks before its slot and those from its slot on. |
| FreeList.ShiftKeepsOrder | src/mem.c:383-387 | Moving the boundary with the free right neighbour, to shrink or grow, keeps order and tiling and touches no other allocated block. |
| FreeList.ShiftOrdered | src/mem.c:464-471 | Moving the boundary with the free right neighbour keeps the list ordered and the region tiled. |
| FreeList.CarveKeepsOrder | src/mem.c:409-411 | Carving a free tail off a block whose right neighbour is not free keeps order and tiling and touches no other allocated block. |
| FreeList.AbsorbKeepsOrder | src/mem.c:447-455 | Absorbing the whole free right neighbour keeps order and tiling and touches no other allocated block. |
| FreeList.SplitLinked | src/mem.c:124-127 | Linking the split-off rest in with `insert_block` at the chosen block's slot yields exactly `Allocated`'s headers. |
| FreeList.ShiftLinked | src/mem.c:386-390 | Unlinking the right neighbour, then inserting the new free block at the same slot and setting the size, yields `Shifted`. |
| FreeList.CarveLinked | src/mem.c:409-413 | Inserting the carved tail at the slot where the search for the right neighbour stopped, then setting the size, yields `CarvedOff`. |
| FreeList.SizesOf | src/mem.c:104 | The sizes the strategy sees, entry by entry of the free list. |
| FreeList.SizesBelowTotal | src/mem.c:223 | Every free size plus a header fits in the region, so no free size equals `SIZE_MAX`. |
| FreeList.InsertRoom | src/mem.c:153-161 | After `insert_block` the list holds a block at least as large as the block inserted. |
| Fit.FirstFit | src/mem.c:207-218 | Returns the lowest index whose size is at least need, or nothing when no size is. |
| Fit.BestFit | src/mem.c:220-235 | Returns the smallest size at least need that is below `SIZE_MAX`, the earliest among equals, or nothing. |
| Fit.WorstFit | src/mem.c:237-252 | Returns the largest size at least need that is above 0, the earliest among equals, or nothing. |
| Fit.Select | src/mem.c:104 | Calls the strategy that is set, and its result is that strategy's choice. |
| Fit.PicksUnique | src/mem.c:207-252 | Each strategy's choice is determined by the sizes and the request. |
| Fit.PicksFindsIffFits | src/mem.c:207-252 | For a request above 0 and sizes below `SIZE_MAX`, every strategy finds nothing exactly when no block is large enough, and otherwise a block that is. |
| Fit.StrategiesDiffer | src/mem.c:207-252 | On sizes 50, 200, 80 and a request of 60, first and worst fit pick the 200-byte block and best fit picks the 80-byte block. |
| Plans.PlanOf | src/mem.c:366-475 | The path is a move exactly when the block must grow and the right neighbour is not free or too small. A shrink stays in place. A growth absorbs or takes the head of a free right neighbour. The block is kept as is exactly for the same size, or a shrink of at most 24 bytes with no free right neighbour. |
| Plans.SizeAfter | src/mem.c:378-475 | An in-place path leaves the block between need and need + 24 bytes, and unchanged exactly on the keep path. |
| Plans.RightOf | src/mem.c:372-380 | The right neighbour's size is known exactly when the block right after o is a free block. |
| Plans.SearchFinds | src/mem.c:375-380 | The slot of c holds c exactly when c is on the free list. |
| Allocator.Refit | src/mem.c:390-392 | The block written when resizing in place satisfies `Refits`: it keeps its header guard and its bytes as far as they fit, holds sz - 8 client bytes and gets the trailing guard at its new end. |
| Allocator.Stored | tests/test_overstep.c:57-62 | A client store changes exactly the byte written: within the client bytes, or in the trailing guard when it overruns. |
| Allocator.StoreBreaksGuard | src/mem.c:148-150 | After a store, both guards still match exactly when the store stayed within the client bytes or rewrote a guard byte with its own value. |
| Allocator.StoreConsistent | tests/test_overstep.c:57-62 | A client store keeps the heap's bookkeeping consistent. |
| Allocator.GrantConsistent | src/mem.c:114-136 | Taking a block for `mem_alloc` and writing its guards keeps the heap consistent. The block ends inside the region. |
| Allocator.ReshapeConsistent | src/mem.c:378-475 | Any in-place reshape that touches only free blocks and the block itself keeps the heap consistent. |
| Allocator.ShiftConsistent | src/mem.c:383-392 | Moving a block's boundary into its free right neighbour keeps the heap consistent. |
| Allocator.CarveConsistent | src/mem.c:409-415 | Carving a free tail off a block keeps the heap consistent. |
| Allocator.AbsorbConsistent | src/mem.c:447-455 | Absorbing the free right neighbour keeps the heap consistent. |
| Allocator.FreeConsistent | src/mem.c:153-161 | Freeing an allocated block keeps the heap consistent. |
| Allocator.RoomAfterFree | src/mem.c:350-353 | After a block is freed, some free block holds at least a guard word, so the `mem_alloc(0)` that follows always succeeds. |
| Allocator.RoomIn | src/mem.c:353 | A free block of at least 8 bytes in a consistent region gives every strategy a candidate and no size at `SIZE_MAX`. |
| Allocator.WalkCons | src/mem.c:190 | The walk from a block prints that block, then walks on from its end. |
| Allocator.WalkCovers | src/mem.c:181-205 | The walk prints a line for every block at or after its start. |
| Allocator.WalkInside | src/mem.c:181-205 | Every line the walk prints is a block's line. |
| Allocator.WalkAscending | src/mem.c:181-205 | The walk prints blocks in strictly ascending address order. |
| Allocator.RunBeforeFree | src/mem.c:187-191 | The blocks before the first free block are allocated and are followed by it, or by the region's end. |
| Allocator.RunAfterFree | src/mem.c:197-202 | The blocks after a free block up to the next one are allocated and end at it, or at the region's end. |
| Allocator.Heap.Init | src/mem.c:67-90 | One free block at the start of the region, of the region's size less a header, with no successor. Nothing is allocated, first fit is set and the secret is `0xDEADBEEFFEEDFACE`. |
| Allocator.Heap.SetFitHandler | src/mem.c:92-95 | The strategy becomes the one given. |
| Allocator.Heap.RemoveBlock | src/mem.c:255-266 | The free list becomes `Remove` of the old one (see `FreeList.RemoveTakesOne`). |
| Allocator.Heap.InsertBlock | src/mem.c:269-325 | The headers become `Insert` of the old ones (see `FreeList.InsertKeepsOrder`). |
| Allocator.Heap.Alloc | src/mem.c:99-137 | NULL with nothing changed when n + 8 does not fit in a `size_t` or the strategy finds no block of n + 8 bytes. Otherwise the strategy's block is taken (`Allocated`) and its address + 16 returned, with both guards written and n + 8 bytes of room. |
| Allocator.Heap.AllocBlock | src/mem.c:104-136 | The strategy picks from the current sizes. Nothing found gives NULL and no change; otherwise that block is taken and returned, live and intact. |
| Allocator.Heap.TakenSize | src/mem.c:117-125 | The block handed out holds need to need + 24 bytes, exactly need when it was split. With `GetSize`, `mem_get_size(mem_alloc(n))` is at least n and exactly n after a split. |
| Allocator.Heap.Grant | src/mem.c:109-136 | Takes the chosen block, returns a non-NULL live pointer with intact guards and keeps the heap valid. |
| Allocator.Heap.TakeBlock | src/mem.c:110-128 | The free list and sizes become `Allocated` of the old ones for the chosen index. |
| Allocator.Heap.LinkRest | src/mem.c:124-127 | Setting the chosen block's size and linking the split-off rest at its slot gives `Allocated`'s headers. |
| Allocator.Heap.Record | src/mem.c:132-134 | Writing the header guard and trailing guard makes the block live and intact and completes `Takes`. |
| Allocator.Heap.Free | src/mem.c:139-162 | An out-of-range pointer (NULL included) changes nothing. Otherwise the call aborts exactly when a guard does not match, changing nothing. If it does not abort, the block is inserted at its slot with fusing and stops being allocated. |
| Allocator.Heap.GetSize | src/mem.c:164-179 | 0 for an out-of-range pointer or a mismatched guard; otherwise the size word less 8. |
| Allocator.Heap.WriteByte | tests/test_overstep.c:57-62 | A client store changes only the block written, as `Stored` says. |
| Allocator.Heap.ShowRun | src/mem.c:198-202 | A run of allocated blocks printed by the inner loop is exactly the walk's lines up to the next free block or the region's end. |
| Allocator.Heap.ShowFree | src/mem.c:194-203 | One pass of the outer loop prints the free block and the run after it, keeping the output a prefix of the walk. |
| Allocator.Heap.Show | src/mem.c:181-205 | The lines printed are exactly the walk over all blocks in address order. |
| Allocator.Heap.RefitBlock | src/mem.c:390-392 | The new block `Refits` the old one (header guard and fitting bytes kept, the guard at the new end), and no other block changes. |
| Allocator.Heap.ShiftHeaders | src/mem.c:383-390 | The headers become `Shifted`: the right neighbour is unlinked, then the new free block is inserted and the size set. |
| Allocator.Heap.LinkShifted | src/mem.c:386-390 | Inserting the new free block at the right neighbour's slot and setting the size gives `Shifted`. |
| Allocator.Heap.CarveHeaders | src/mem.c:409-413 | The headers become `CarvedOff`. |
| Allocator.Heap.AbsorbHeaders | src/mem.c:447-454 | The headers become `Absorbed`. |
| Allocator.Heap.MoveBoundary | src/mem.c:383-392 | Case 3.1 and case 4.2.2: the headers become `Shifted`, the block `Refits` the old one with its guard at the new end, no other block changes, and the heap stays valid. |
| Allocator.Heap.CarveTail | src/mem.c:409-416 | Case 3.2.2: the headers become `CarvedOff`, the block `Refits` the old one at need bytes, no other block changes, and the heap stays valid. |
| Allocator.Heap.AbsorbRight | src/mem.c:447-457 | Case 4.2.1: the headers become `Absorbed`, the block `Refits` the old one at its new size, no other block changes, and the heap stays valid. |
| Allocator.Heap.Realloc | src/mem.c:339-476 | NULL behaves as `mem_alloc`. Out of range gives NULL with no change. Size 0 frees and then allocates 0 bytes. A request whose size + 8 wraps gives NULL. Otherwise: an abort on a bad guard, the in-place path `PlanOf` chooses, or a move. Any non-NULL result holds the old block's first bytes up to n. |
| Allocator.Heap.FreeThenAlloc | src/mem.c:350-354 | Case 1: a bad guard aborts with no change. Otherwise the block is freed and `mem_alloc(0)` returns a non-NULL live block from the list as it is after the free. |
| Allocator.Heap.Resize | src/mem.c:356-369 | After the guard checks, the block follows `PlanOf`: the same pointer for every in-place path, `Relocates` for a move. The old bytes up to n are kept. |
| Allocator.Heap.Reshape | src/mem.c:372-475 | For a block whose guards are intact, completes `Resizes`: it finds the right neighbour and follows `PlanOf`, either in place with the same pointer or by a move. Any non-NULL result holds the old block's first bytes up to n. |
| Allocator.RefitsKeep | src/mem.c:390-392 | A block resized in place keeps the old client bytes up to its new length. |
| Allocator.Heap.Shrink | src/mem.c:378-419 | Case 3: the block shrinks in place along `PlanOf` (give the tail, carve, or keep) and keeps its first need - 8 bytes. |
| Allocator.Heap.Grow | src/mem.c:421-475 | Case 4: in place when the free right neighbour has room, otherwise a move. The old bytes are kept either way. |
| Allocator.Heap.GrowInPlace | src/mem.c:443-475 | Case 4.2: absorbs the right neighbour when at most 24 bytes would be left, otherwise takes its head. The block keeps its bytes. |
| Allocator.Heap.Relocate | src/mem.c:422-441 | Case 4.1: a failed allocation gives NULL with nothing changed. Otherwise a new block is taken, the old bytes are copied into it, the old block is freed, and the new pointer is returned. |
| Allocator.Heap.TakenLive | src/mem.c:136 | The pointer `mem_alloc` returns is the chosen block's address + 16, and that block is allocated. |
| Allocator.Heap.MovedKeeps | src/mem.c:435 | After a move, the new block's first bytes are the old block's. |
| Allocator.Heap.FinishMove | src/mem.c:435-440 | Copying and freeing after the allocation completes `Moved`. |
| Allocator.Heap.TakenKeeps | src/mem.c:428 | The allocation in case 4.1 leaves the old block allocated and as it was. |
| Allocator.CopyIntoFresh | src/mem.c:435-440 | Copying o's bytes over the start of a fresh block b and dropping o leaves b with o's bytes first, its length and guards unchanged, and every other block alone. |
| Allocator.Heap.MovedAfter | src/mem.c:428-440 | Allocation, then copy and free, composes into `Moved`. |
| Allocator.Heap.CopyAndFree | src/mem.c:435-438 | The new block gets the old bytes over its start; the old block is inserted at its slot and stops being allocated. |
| Allocator.Heap.CopyData | src/mem.c:435 | Only the destination block's bytes change, to `CopiedOver`. |
| Findings.WrappedNeed | src/mem.c:101 | The request plus guard modulo 2^64: the true sum exactly when it fits, otherwise less than 8 and less than the request. |
| Findings.LargestRequestWraps | src/mem.c:101 | `SIZE_MAX - 7` bytes become a request for 0 bytes, `SIZE_MAX` bytes a request for 7. |
| Findings.AllocOverflowGrantsTooLittle | src/mem.c:101-104 | As written, with first fit, a request of `SIZE_MAX - 7` bytes or more takes the first free block as soon as it holds the wrapped request (fewer than 8 bytes, so any block for `SIZE_MAX - 7`), and that block holds fewer than n + 8 bytes. |
| Findings.WrappedSplitRecords | src/mem.c:114-131 | As written, when the block chosen for a wrapped request w is split, its header records w < 8 bytes. |
| Findings.HeaderGuardAfter | src/mem.c:132-134 | The header guard word of a block recording w bytes once the trailing guard is stored at offset 16 + w - 8: bytes w to 7 take g's bytes 0 to 7 - w, the others stay. |
| Findings.WrappedGuardOverlapsHeader | src/mem.c:134-178 | With w < 8 the trailing guard lands on the header guard. For w = 0 both guards still match and `mem_get_size` reports `SIZE_MAX - 7`. For w > 0 the header guard differs from g whenever bytes 0 and w of g differ, so `mem_free`'s first assert fails. |
| Findings.ReallocOverflowShrinks | src/mem.c:356-378 | As written, such a request to `mem_realloc` takes a shrinking path and returns the block in place, holding fewer than n + 8 bytes. |
| Findings.NextAfterShiftBytes | src/mem.c:383-386 | As written, case 3.1 zeroes the low 8 - d bytes of the right neighbour's `next` before `remove_block` reads it; the other bytes stay. |
| Findings.ShiftKeepsNextIff | src/mem.c:383-386 | As written, case 3.1 links in the right neighbour's true successor exactly when the overwritten bytes were zero already. |
| Findings.ShiftLosesSuccessor | src/mem.c:383-386 | As written, d = 1 with a successor at `0x555555559010` links in NULL in its place. |

## Left out

- The region provider (`mem_space_get_addr`, `mem_space_get_size`) is not part of this model. The region's address and length are parameters of `Heap.Init`.
- `src/malloc_stub.c` is not part of this model: its `first_use` initialisation, reentrancy flag, logging and `calloc` are plumbing around the engine.
- Function pointers for strategies are the closed `Strategy` datatype. The print callback of `mem_show` is replaced by returning the sequence of lines.
- `insert_block` finds the previous node by subtracting `offsetof(next)` from the slot's address and comparing it with the region's start. The model passes the slot as an index into the free list, with 0 for the list head.
- Memory is not a byte array. The model keeps each header's size word, the free list order, and each allocated block's guard, client bytes and trailing guard. Aliasing between a header and client bytes exists in the model only where findings.dfy spells it out.
- Memory contents the allocator does not write are not tracked. The bytes of a fresh block, the bytes gained by growing in place, and the tail of a moved block are left unconstrained by the contracts. The model's own bodies fill them with zeros.
- Allocator.Heap.Free, Allocator.Heap.GetSize and Allocator.Heap.Realloc require an in-range pointer to be one `mem_alloc` returned and not yet freed. A double free or a pointer into the middle of a block reads arbitrary bytes as a header, so its outcome depends on memory contents the model does not track.
- Allocator.Heap.Show requires only the free list order and the tiling, not the whole heap invariant. It is not modelled on a heap whose headers were overwritten by overruns.
- Guards are unbounded naturals combined by `Xor`; since addresses and the secret are below 2^64, this is the `uint64_t` XOR.
- Allocator.Heap.MoveBoundary: unlinks the right neighbour before writing the new free header, as the corrected behaviour in Findings.
- Case 4.2.2 writes the block's new size and trailing guard before `insert_block` and case 3.2.2 after it. Only the final state is modelled, since `insert_block` does not read the allocated block.
- `mem_alloc(0)` inside `mem_realloc` case 1 is `AllocBlock` with a request of 8 bytes, which cannot overflow.
- Allocator.Heap.Realloc: a request whose size + 8 wraps returns NULL in the model, the corrected behaviour in Findings.

## Findings

| source | as written | input that shows it | evidently intended | confidence | as-written member | corrected member |
|---|---|---|---|---|---|---|
| src/mem.c:101 | `size += SECRET_SIZE` wraps modulo 2^64, so a huge request becomes a request for w = n + 8 - 2^64 < 8 bytes | `mem_alloc(SIZE_MAX - 7)` asks the strategy for 0 bytes and returns the first free block. If that block is split, its header records w bytes and the trailing guard is written on top of the header guard. For w = 0 `mem_get_size` then reports `SIZE_MAX - 7`; for w > 0 the header guard is corrupted, so a later `mem_free` aborts (`Findings.WrappedSplitRecords`, `Findings.WrappedGuardOverlapsHeader`) | fail with NULL when n + 8 does not fit in a `size_t` | not executed | Findings.AllocOverflowGrantsTooLittle | Allocator.Heap.Alloc |
| src/mem.c:356 | the same wrap in `mem_realloc` turns a huge growth into a shrink | `mem_realloc(p, SIZE_MAX)` on a block of 40 bytes takes a shrinking path towards 7 bytes and returns p | return NULL, leaving the block as it was | not executed | Findings.ReallocOverflowShrinks | Allocator.Heap.Realloc |
| src/mem.c:383-387 | case 3.1 writes the new 16-byte free header d = have - need bytes before the right neighbour's header, then calls `remove_block`, which reads the neighbour's `next`; for d < 8 the new header's NULL has already overwritten the low 8 - d bytes of that field | a block of 17 bytes shrunk to 16 (d = 1) whose free right neighbour links to a block at `0x555555559010`: `remove_block` links in NULL and every free block after the neighbour drops off the list | unlink the right neighbour before writing the new header, keeping its successor on the list | not executed | Findings.ShiftLosesSuccessor | Allocator.Heap.MoveBoundary |
