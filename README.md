# A verified model of a first-fit / next-fit / best-fit / free-list heap allocator

This project models the allocator engine of a small user-space heap
allocator. The allocator keeps a singly linked chain of `MemoryBlock`
headers. Each header has a size, a used flag, a `next` link and a
one-word `data` field. The payload is `size` bytes starting at `data`, so
its first word lies inside the 32-byte header. The headers sit in memory obtained by moving
the program break. The engine keeps the process-wide cursors `heapStart`,
`head` (the block grown last) and `searchStart` (the next-fit cursor).
It also keeps a search-mode tag and, in the newer version, a free list.

Two versions of the engine share one model, selected by `Version`:

- `Current` is src/alloc.cpp, with four modes: first-fit, next-fit,
  best-fit and free-list.
- `Snapshot` is the older alloc.cpp: three modes and no free list.

The model has two layers.

- **Specification layer** (pure functions over a `Heap` value). This state
  is never changed in place.
  - `Layout`: header layout and sizing arithmetic, with 64-bit `size_t`
    wrap-around.
  - `HeapState`: the state, and the invariant `Valid`.
  - `Search`: what each scan finds.
  - `Engine`: reset, init, free, split, list_allocate, the searches that
    allocate, find_block and allocate.
  - Every block header ever stamped lives in an arena `blocks: seq<Block>`,
    indexed by a `Ref`.
  - `chain` lists the blocks reachable from `heapStart`, in order. `Valid`
    ties `chain` to the `next` links: no block repeats, and the last link
    is null. `Valid` also says that `head` equals `searchStart` and lies on
    the chain.
- **Imperative layer**. `Alloc.Allocator` is a class whose fields are the
  source's globals. Its methods update those fields as the C++ functions
  do, with the same `while` loops (proved by loop invariants). Each method
  is proved against a function, and the methods that change state keep
  `Valid`. `ResetHeap` is proved against `Engine.Reset`, and the two scans
  against `Search.FirstFitSearch` and `Search.NextFitSearch`. `LeastWaste`
  is proved against `Search.MinWaste`, `FirstWithLeastWaste` against
  `Search.FirstWithWaste`, and `RequestBlock` against `Engine.CanGrow`.
  Every other method is proved against the `Engine` function of the same
  name.
  - A method that allocates ensures
    `(State(), res) == Engine.Allocate(old(State()), n)`.
  - A search that changes nothing ensures its result equals the `Search`
    function.

On top of the two layers:

- `Properties` proves facts that span several calls:
  - where next-fit looks first;
  - that a block freed right after `allocate(n)` is the one the next
    `allocate(n)` returns under first-fit and next-fit;
  - that this is not so under free-list mode, nor for a smaller request
    under first-fit;
  - what splitting the last-grown block does to the chain.
- `Accounting` proves the byte accounting of the heap. A heap built by
  growth lies back to back, header and payload, from the first header up to
  the break. First-fit and next-fit never split, so they keep that layout.
  Each split makes one header more than the bytes obtained from the break
  pay for.
- `Scenarios` and `Fixtures` replay on the `Allocator` object:
  - the assertions of alloc.cpp's `main`;
  - the tests of tests/tests.cpp, including the gtest fixture, whose state
    carries over from one test to the next.

The model follows the source where it is unusual:

- Under first-fit and next-fit a reused block is returned as it is, still
  marked free (`Engine.ReuseLeavesBlockFree`).
- `searchStart` moves only when the heap grows.
- `split` stamps the tail header at `addr + size * 32` (a scaled pointer
  offset). See `Layout.SplitAddr`.
- Best-fit's "nothing found" sentinel is 65535.
- `reset_heap` keeps the free list.
- `freeList.remove` drops every copy of a block.
- Splitting the block that is `head` puts the free tail after it. The next
  growth links the new block straight after `head`, so the tail falls off
  the chain (`Properties.SplitHeadThenGrowDropsTail`).

The allocator's intended design departs from its code in several places.
The model follows the code in each of them:

- **Next-fit cursor.** The design intends `searchStart` to move on every
  successful next-fit allocation. The code sets it only on growth
  (src/alloc.cpp:216-217).
- **Heap reset.** The design intends a reset to clear the free list too.
  `reset_heap` does not touch it (src/alloc.cpp:11-22).
- **Reuse after `free`.** The design promises that, right after a `free`,
  an allocation of equal or smaller size returns the same block under
  first-fit, next-fit and free-list.
  - The code keeps that promise only for a request of the same size, and
    only under first-fit and next-fit (`Properties.ReuseAfterFree`).
  - A smaller request under first-fit takes an earlier free block that was
    too small for the first request (`Properties.FirstFitSmallerMayNotReuse`).
  - Under free-list the freed block can queue behind another one
    (`Properties.FreeListMayNotReuse`).
- **Byte accounting.** The design intends the blocks, each size plus its
  header, to add up to the bytes obtained from the break.
  - That holds for a heap built by growth with every `alloc_size` below
    2^63, and it is kept by first-fit and next-fit
    (`Accounting.PackedExtent`, `Accounting.AllocateKeepsPacked`). A larger
    `alloc_size` is a negative `sbrk` increment in the source, which the
    model does not capture (see `Alloc.Allocator.RequestBlock` under
    "## Left out").
  - `split` gives the two parts sizes that add up to the old size, yet it
    stamps a new header, so every split adds one uncounted 24-byte header
    (`Accounting.SplitBreaksAccounting`).
- **Failed growth.** The design intends a failed growth to be reported as
  out-of-memory. The code dereferences the null result of `request_block`
  (src/alloc.cpp:205-207). The model returns `OutOfMemory` and leaves the
  state as the search left it.
- **Comments in test case 5.** The comments in alloc.cpp's test case 5 show
  the first 16-byte block marked used after `o3 = allocate(16)`. The code
  returns the second one (under `searchStart`), still marked free, and the
  final `allocate(16)` returns that same block again
  (`Scenarios.NextFitSearchStartPosition`). The test's own assertion holds
  either way.

The operating system's break is an abstract counter `brk` with a fixed
ceiling `limit`. In the model `request_block` succeeds exactly when
`brk + alloc_size(size) <= limit`.

## Model

| member | source | states |
|---|---|---|
| Layout.Align | src/alloc.cpp:30-36 | `align(n)` is a multiple of 8 below 2^64; it is `n` when `n` is already a multiple; otherwise `n <= align(n) < n + 8`; the few values above the last multiple of 8 wrap round to 0 |
| Layout.AllocSize | src/alloc.cpp:38-41 | the raw bytes requested for a payload of `size` bytes are `size + 24` (header of 32 minus the one-word placeholder), reduced modulo 2^64 |
| Layout.GetHeader | src/alloc.cpp:53-56 | the header address of a payload: the payload lies 24 bytes past it |
| Layout.HeaderOfPayload | src/alloc.cpp:53-56 | `get_header(block->data)` is the block's own header address |
| Layout.SplitAddr | src/alloc.cpp:74 | the tail header of a split is stamped `size * 32` bytes past the head; a zero size puts it on the head itself |
| HeapState.Initial | src/alloc.cpp:3-9 | the globals' initial values (no heap, first-fit, empty free list) satisfy the invariant |
| HeapState.LinkedInsert | src/alloc.cpp:72-84 | linking a fresh block right after `r`, taking `r`'s old link, keeps the chain linked and repetition-free, with the same first block and no block lost |
| HeapState.LinkedAppend | src/alloc.cpp:213-214 | setting `head.next` to a fresh block with a null link cuts the chain after `head` and appends the block; the result is linked and ends at the new block |
| HeapState.NextLink | src/alloc.cpp:101-106 | proof step: following the `next` link of a chain block gives the next chain entry, or null after the last |
| Search.FirstFitPos | src/alloc.cpp:97-113 | the position of the first free block of at least `size` bytes from a chain position on, with every block before it not fitting; or none, when no block from there on fits |
| Search.FirstFitStep | src/alloc.cpp:103-106 | proof step: a block that is used or too small is skipped: the scan's answer from it is the answer from the next position |
| Search.FirstFitChoice | src/alloc.cpp:97-113 | first-fit finds nothing exactly when no block of the chain fits; otherwise it finds the first fitting block |
| Search.Cursor | src/alloc.cpp:115-131 | the chain position `searchStart` points at |
| Search.NextFitChoice | src/alloc.cpp:115-131 | next-fit finds nothing exactly when no block from the cursor on fits, whatever fits before it; otherwise it finds the first fitting block at or after the cursor |
| Search.MinWaste | src/alloc.cpp:135-147 | best-fit's running minimum is at most the sentinel and at most the waste of every fitting block seen; below the sentinel it is the waste of one of them |
| Search.MinWasteStep | src/alloc.cpp:140-146 | proof step: one step of the first walk: the minimum drops to a fitting block's waste exactly when that waste is smaller |
| Search.FirstWithWaste | src/alloc.cpp:152-162 | the first fitting block at or after a position whose waste is exactly `w`, with none of that waste before it |
| Search.FirstWithWasteStep | src/alloc.cpp:155-161 | proof step: one step of the second walk: a block that does not fit with waste `w` is skipped |
| Search.BestFitChoice | src/alloc.cpp:133-165 | best-fit picks nothing exactly when every fitting block wastes at least 65535; otherwise it picks a fitting block of least waste, below the sentinel, with every earlier fitting block wasting strictly more |
| Search.FreeListPos | src/alloc.cpp:169-173 | the first free-list entry at or after a position whose block holds at least `size` bytes, looking at sizes only |
| Search.Without | src/alloc.cpp:174 | removal drops every copy of the block and keeps every other entry with its multiplicity |
| Search.WithoutConcat | src/alloc.cpp:174 | removal works piecewise on a concatenation, so it keeps the order of what remains |
| Search.WithoutAbsent | src/alloc.cpp:174 | removing a block the list does not hold leaves it unchanged |
| Engine.ResetSpec | src/alloc.cpp:11-22 | reset is a no-op on an empty heap; otherwise it empties the chain, nulls the three cursors and rolls the break back to the first header; blocks, mode and free list are unchanged; the invariant is kept |
| Engine.InitSpec | src/alloc.cpp:24-28 | init sets the mode, nulls the cursors, keeps the free list and the invariant, and a second init with the same mode changes nothing |
| Engine.FreeSpec | src/alloc.cpp:58-65 | free clears only the block's used flag; it appends the block to the free list exactly in free-list mode of the current version; nothing else changes; the invariant is kept |
| Engine.SplitValid | src/alloc.cpp:72-84 | split keeps the invariant |
| Engine.SplitSpec | src/alloc.cpp:72-84 | after split the block is used with `size` bytes and links to a new free tail; the tail holds the rest and takes the old link; the two sizes add up to the old size; no other block or cursor changes |
| Engine.SplitChain | src/alloc.cpp:72-84 | the tail follows the split block on the chain when that block is on it; otherwise the chain is unchanged |
| Engine.ListAllocateSpec | src/alloc.cpp:86-95 | afterwards the block is used with exactly `size` bytes; a tail is made exactly when the block was strictly larger; an exact fit is only marked used; no other block changes |
| Engine.BestFitSearch | src/alloc.cpp:133-165 | when best-fit finds nothing the state is unchanged |
| Engine.BestFitSearchSpec | src/alloc.cpp:133-165 | best-fit keeps the invariant; it allocates the block at the position best-fit picks; finding nothing changes nothing |
| Engine.FreeListSearch | src/alloc.cpp:167-179 | when no free-list entry fits the state is unchanged |
| Engine.FreeListSearchSpec | src/alloc.cpp:167-179 | nothing is found exactly when every entry is too small; otherwise the first entry large enough is taken, every copy of it leaves the list, the rest keep their order, and it is allocated; the invariant is kept |
| Engine.Strategy | src/alloc.cpp:181-196 | the dispatch target is one of the four policies; a tag that names no enumerator, or free-list in the older version, falls through to first-fit; otherwise it is the tag itself |
| Engine.FindBlock | src/alloc.cpp:181-196 | a search that finds nothing leaves the state unchanged |
| Engine.FindBlockSpec | src/alloc.cpp:181-196 | every search keeps the invariant, returns a stamped block and leaves the cursors and the break alone |
| Engine.GrowValid | src/alloc.cpp:205-217 | growth keeps the invariant |
| Engine.GrowSpec | src/alloc.cpp:205-217 | growth stamps one used block of `size` bytes at the old break and links it after `head`; it becomes `head` and `searchStart`, and `heapStart` only if that was null; the break moves by `alloc_size(size)`; the free list and mode are unchanged |
| Engine.AllocateValid | src/alloc.cpp:198-220 | allocate keeps the invariant, and a block it returns is a stamped one |
| Engine.AllocateHit | src/alloc.cpp:200-203 | when the search finds a block, `allocate` returns it with the state the search left, which is valid |
| Engine.AllocateGrow | src/alloc.cpp:205-219 | when the search finds nothing and the break can move, `allocate` returns a new block from the growth path |
| Engine.AllocateOutcome | src/alloc.cpp:198-220 | a hit returns the found block and leaves the cursors alone; a miss that can grow returns a new used block of `align(n)` bytes under `head` and `searchStart`; a miss that cannot grow fails and changes nothing |
| Engine.ReuseLeavesBlockFree | src/alloc.cpp:97-131 | under first-fit and next-fit a reused block is returned still marked free, with enough bytes, and the state does not change |
| Alloc.Allocator.constructor | src/alloc.cpp:3-9 | the object starts in the globals' initial state |
| Alloc.Allocator.ResetHeap | src/alloc.cpp:11-22 | the method leaves the state `Engine.Reset` describes |
| Alloc.Allocator.Init | src/alloc.cpp:24-28 | the method leaves the state `Engine.Init` describes |
| Alloc.Allocator.Free | src/alloc.cpp:58-65 | the method leaves the state `Engine.Free` describes, and keeps the invariant |
| Alloc.Allocator.Split | src/alloc.cpp:72-84 | the method leaves the state `Engine.Split` describes, and returns the same block |
| Alloc.Allocator.ListAllocate | src/alloc.cpp:86-95 | the method leaves the state `Engine.ListAllocate` describes, and returns the same block |
| Alloc.Allocator.FirstFitSearch | src/alloc.cpp:97-113 | the pointer walk from `heapStart` returns what `Search.FirstFitSearch` finds |
| Alloc.Allocator.NextFitSearch | src/alloc.cpp:115-131 | the pointer walk from `searchStart` returns what `Search.NextFitSearch` finds |
| Alloc.Allocator.LeastWaste | src/alloc.cpp:135-147 | the first walk of best-fit computes the least waste over the whole chain, starting from the sentinel |
| Alloc.Allocator.FirstWithLeastWaste | src/alloc.cpp:152-162 | the second walk stops at the first fitting block with that waste, or runs off the end |
| Alloc.Allocator.BestFitSearch | src/alloc.cpp:133-165 | the two walks and `list_allocate` return and leave what `Engine.BestFitSearch` describes |
| Alloc.Allocator.FreeListSearch | src/alloc.cpp:167-179 | the loop over the free list returns and leaves what `Engine.FreeListSearch` describes |
| Alloc.Allocator.FindBlock | src/alloc.cpp:181-196 | the switch, with first-fit after it, returns and leaves what `Engine.FindBlock` describes |
| Alloc.Allocator.RequestBlock | src/alloc.cpp:43-51 | the old break is returned and the break moves by `alloc_size(size)` exactly when it stays under the ceiling; otherwise nothing moves |
| Alloc.Allocator.Allocate | src/alloc.cpp:198-220 | the method returns and leaves what `Engine.Allocate` describes, and keeps the invariant |
| Properties.NextFitTakesCursor | src/alloc.cpp:115-131 | when the block under `searchStart` fits, next-fit returns exactly that block and changes nothing |
| Properties.GrowThenFree | src/alloc.cpp:58-65 | freeing the block just grown leaves it free and fitting, last on the chain and under the cursor; the blocks before it keep their sizes and flags |
| Properties.FirstFitFindsGrown | alloc.cpp:110-126 | when nothing on the chain fitted, first-fit after growth and free finds exactly the block just grown |
| Properties.FirstFitFindsLast | src/alloc.cpp:97-113 | first-fit from the start finds the last chain block when it alone fits |
| Properties.FreeAfterReuse | alloc.cpp:110-144 | a block reused by first-fit or next-fit is still free, so freeing it again changes nothing |
| Properties.ReuseAfterFree | alloc.cpp:240-256 | under first-fit and next-fit, the block freed right after `allocate(n)` returned it is the block the next `allocate(n)` returns, and that call changes nothing |
| Properties.TwoFreeBlocks | src/alloc.cpp:58-65 | a heap of a free 16-byte and a free 8-byte block, freed in that order in free-list mode, is valid |
| Properties.FirstGrowth | src/alloc.cpp:198-220 | `allocate(16)` right after `init(FreeList)` on an empty 72-byte arena finds nothing, grows block 0 of 16 bytes at address 0 and moves the break to 40 |
| Properties.SecondGrowth | src/alloc.cpp:198-220 | the next `allocate(8)` finds no free block, grows block 1 of 8 bytes at address 40, links block 0 to it and moves the break to the ceiling 72 |
| Properties.TwoFreeBlocksReachable | src/alloc.cpp:198-220 | `TwoFreeBlocks()` is the state that `init(FreeList); allocate(16); allocate(8); free(block 0); free(block 1)` leaves on a fresh 72-byte arena |
| Properties.FreeListMayNotReuse | src/alloc.cpp:167-179 | in free-list mode `allocate(8)` splits the 16-byte block and returns it; `free` appends it behind the 8-byte one; the next `allocate(8)` returns the 8-byte block instead |
| Properties.SplitHeadThenGrowDropsTail | src/alloc.cpp:72-84 | splitting the block that is `head` puts a free tail on the chain, and the next growth drops that tail from the chain |
| Properties.SmallFreeFirst | src/alloc.cpp:58-65 | a valid first-fit heap of a free 8-byte block followed by a free 16-byte block |
| Properties.SmallGrowth | src/alloc.cpp:198-220 | `allocate(8)` on the initial first-fit globals of a 72-byte arena grows block 0 of 8 bytes at address 0 and moves the break to 32 |
| Properties.LargeGrowth | src/alloc.cpp:198-220 | the next `allocate(16)` finds the used 8-byte block unfit, grows block 1 of 16 bytes at address 32 and moves the break to the ceiling 72 |
| Properties.SmallFreeFirstReachable | src/alloc.cpp:198-220 | `SmallFreeFirst()` is the state that `allocate(8); allocate(16); free(block 0); free(block 1)` leaves on the initial first-fit globals of a 72-byte arena |
| Properties.FirstFitSmallerMayNotReuse | src/alloc.cpp:97-113 | under first-fit `allocate(16)` returns the 16-byte block; after it is freed, `allocate(8)` returns the earlier 8-byte block instead |
| Accounting.ExtentSpan | src/alloc.cpp:38-41 | blocks laid back to back span from the first header to the end of the last payload exactly the sum of their `alloc_size` |
| Accounting.PackedExtent | src/alloc.cpp:43-51 | on a heap laid out by growth, the bytes from the first header to the break are exactly the sum over the chain of size plus header overhead |
| Accounting.PackedAdjacent | src/alloc.cpp:38-41 | on such a heap, each chain block starts right after the payload of the block before it |
| Accounting.InitialPacked | src/alloc.cpp:3-9 | the initial globals have that layout |
| Accounting.InitPacked | src/alloc.cpp:11-28 | `reset_heap` and `init` leave that layout, since they empty the chain |
| Accounting.FreePacked | src/alloc.cpp:58-65 | `free` keeps that layout |
| Accounting.GrowPacked | src/alloc.cpp:205-217 | growth stamps the new block at the break after the last block and moves the break past it: the layout is kept and the sum grows by `alloc_size(size)` |
| Accounting.AppendPacked | src/alloc.cpp:205-217 | a block stamped where a back-to-back list ends extends it back to back and adds its `alloc_size` to the sum |
| Accounting.AllocateKeepsPacked | src/alloc.cpp:97-131 | first-fit and next-fit never split, so `allocate` under them keeps the layout |
| Accounting.SplitAddsHeader | src/alloc.cpp:72-95 | a split puts the tail after the block on the chain and leaves the break and every address alone, yet the chain's sum grows by one 24-byte header |
| Accounting.InsertExtent | src/alloc.cpp:75-81 | inserting a block whose size and the old block's new size add up to the old size adds exactly one header to the sum |
| Accounting.SplitBreaksAccounting | src/alloc.cpp:72-95 | after a split of a heap laid out by growth, the chain's sizes plus headers exceed the bytes from the first header to the break by exactly one header |
| Scenarios.FindNothing | src/alloc.cpp:181-196 | on a chain all in use, first-fit, next-fit and best-fit find nothing and change nothing |
| Scenarios.GrowAppends | src/alloc.cpp:212-217 | when `head` ends the chain, growth appends the new block to it |
| Scenarios.GrowTidy | src/alloc.cpp:205-217 | growing a chain that is all in use appends a used block and keeps the old sizes and flags |
| Scenarios.AllocateGrows | src/alloc.cpp:198-220 | on a chain all in use, `allocate` under a chain-scanning policy grows the heap |
| Scenarios.GrowStep | src/alloc.cpp:205-217 | one growth on a grown heap stamps the next reference with the requested size and keeps the earlier sizes, mode and version |
| Scenarios.GrownTidy | src/alloc.cpp:205-217 | a chain of blocks grown one after the other is all in use and ends at `head` |
| Scenarios.GrownAppend | src/alloc.cpp:213-217 | one more used block grown at the next reference keeps the chain a run of grown blocks |
| Scenarios.GrowBy | src/alloc.cpp:198-220 | one `allocate(n)` of a scenario returns the next reference with `align(n)` bytes, and the heap stays grown |
| Scenarios.NextFitReuse | alloc.cpp:273-281 | with both 16-byte blocks freed, next-fit returns the block under `searchStart` and changes nothing |
| Scenarios.NextFitEights | alloc.cpp:263-267 | `init(NextFit)` and three `allocate(8)` leave a grown heap of three blocks |
| Scenarios.NextFitGrow | alloc.cpp:263-271 | with two `allocate(16)` more, the chain is five grown blocks, the last of 16 bytes |
| Scenarios.NextFitSearchStartPosition | alloc.cpp:259-286 | after the frees, `allocate(16)` returns the second 16-byte block, still free, under `searchStart`; the final `allocate(16)` returns it again |
| Scenarios.BestFitFreed | alloc.cpp:299-305 | freeing the 16- and the 64-byte blocks gives the layout used 8, free 64, used 8, free 16 |
| Scenarios.AllocateBestFit | src/alloc.cpp:133-165 | `allocate` in best-fit mode allocates the block at the position best-fit picks |
| Scenarios.BestFitPicksExact | alloc.cpp:307-309 | with the 64- and the 16-byte blocks free, best-fit picks the 16-byte block |
| Scenarios.BestFitPicksSplit | alloc.cpp:313-315 | with only the 64-byte block free, best-fit picks it |
| Scenarios.BestFitExact | alloc.cpp:307-311 | the first `allocate(16)` returns the 16-byte block and marks it used without splitting |
| Scenarios.SplitSixtyFour | alloc.cpp:313-317 | allocating 16 bytes from the 64-byte block makes a used 16 followed on the chain by a free 48 |
| Scenarios.BestFitSplit | alloc.cpp:313-317 | the second `allocate(16)` returns the 64-byte block, split into a used 16 and a free 48 |
| Scenarios.BestFitReuse | alloc.cpp:307-317 | from the layout on, the two `allocate(16)` calls return the 16-byte block, then the split 64-byte one |
| Scenarios.BestFitFirstTwo | alloc.cpp:291-295 | `init(BestFit)`, `allocate(8)` and `allocate(64)` make two grown blocks of 8 and 64 bytes |
| Scenarios.BestFitGrow | alloc.cpp:291-297 | with `allocate(8)` and `allocate(16)` more, four grown blocks of 8, 64, 8 and 16 bytes |
| Scenarios.BestFitSearch | tests/tests.cpp:67-85 | end to end: `z3` is `z2`, then `z1`, now 16 bytes, used and linked to a free 48-byte tail, with five blocks on the chain |
| Fixtures.MainFirstFit | alloc.cpp:221-256 | `allocate(3)` and `allocate(8)` give 8-byte blocks; after `free` the block is not used; the next `allocate(8)` returns the same block, of 8 bytes |
| Fixtures.AlignEightTest | tests/tests.cpp:18-30 | the fixture's `allocate(8)` on a grown first-fit heap gives an 8-byte block |
| Fixtures.FreeTest | tests/tests.cpp:32-37 | the fixture's block is used when returned and free after `free` |
| Fixtures.ReuseBlockTest | tests/tests.cpp:39-46 | under first-fit or next-fit, when the break can move, the block freed after `SetUp` is the block the next `allocate(8)` returns |
| Fixtures.FixtureRun | tests/tests.cpp:12-46 | the three fixture tests in order on one set of globals: `SetUp` before `ReuseBlockTest` returns the block `FreeTest` freed, and the test gets it once more |

## Left out

- `sbrk`/`brk` are not modelled as system calls. The break is a counter with a fixed ceiling, and reset moves it back to the first header's address.
- Alloc.Allocator.RequestBlock: `sbrk` takes a signed increment (src/alloc.cpp:47), so an `alloc_size` of 2^63 or more is a negative increment that lowers the break and can succeed; `Engine.CanGrow`, `Engine.Grow` and `RequestBlock` only ever move the break up, and the accounting lemmas (`Accounting.GrowPacked`, `Accounting.PackedExtent`) hold only for `alloc_size` below 2^63. A break that moves down would need the allocator's whole address arithmetic modelled modulo 2^64.
- Engine.Allocate: when `request_block` fails, the source dereferences a null header. The model returns `OutOfMemory` instead and leaves the state as the search left it.
- Payload bytes and raw memory are not modelled. Headers are records in an arena, not bytes at addresses.
- Physical overlap is not modelled. The scaled split offset can stamp a tail header on top of other headers, and `split` with size 0 puts the tail on the block itself, making a self-link. Each header's computed address is recorded, but a split tail is always a separate record after the block on the chain.
- `free` takes the block reference, not the payload pointer. `get_header` and its inverse are modelled separately in `Layout`.
- A new block's `next` field is never written in the source. The model takes it to be null.
- Double free, freeing a pointer that was never allocated, and uninitialised `next` memory are undefined behaviour in the source and are not modelled.
- Engine.FreeListSearch: after a reset, free-list entries point into memory the break has given back. Later growth stamps new headers at those same addresses, so in the source such an entry reads whichever header now lies there. The model keeps each entry naming its old record, with that record's old size and flag. It does not capture this aliasing of stale entries with new blocks.
- `freeList.remove(block)` is handed a reference to the list's own element, which dangles once the element is erased. `list_allocate` then reads through it. This undefined behaviour is not modelled: the model uses the value the reference held before the removal.
- Accounting.SplitAddsHeader: stated only for a block smaller than 2^64 - 24 bytes, where `alloc_size` does not wrap round. Accounting.SplitBreaksAccounting and Accounting.PackedAdjacent carry the same bound.
- Concurrency: the source has none.
- src/main.cpp (a demo that prints a pointer) is not part of this model.
- The gtest harness is not modelled. The fixture tests are replayed as methods that share one allocator object.
- Test cases 5 and 6 of alloc.cpp's `main` are proved from any valid allocator state that leaves room under the ceiling, not chained onto the state after test case 4.
- Best-fit's "lowest-address" tie-break is modelled as first in chain order, which is what the second walk does.
