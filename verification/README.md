# Allocator, driver, shell and buffered input of a systems-programming course, verified

This project models the hard parts of five laboratory programs in Dafny and proves what they are for.

**The segregated-fit allocator** (`Lab/MemoryLab/mm.c` on `Lab/MemoryLab/memlib.c`). One array of words holds three
structures at once: blocks with boundary tags between a prologue and an epilogue, 32 circular doubly linked free lists
threaded through the free payloads, and a "bulk" tag that lets a block sit in a list below its size. `Allocator` is a
class over that array, with the source's statements; a ghost `Layout` (blocks by address, class of each listed block, 32
rings) says what the words mean, and `Heaps.Holds` ties the two. `Valid()` is the invariant: the blocks tile the heap,
every header and footer agrees with its block, every ring is well linked, the listed blocks are exactly the free ones,
each once and in a class that suits it, and no two free blocks touch. `mm_init`, `mm_malloc`, `mm_free` and `mm_exit`
keep it, and the layout each call leaves is known exactly, down to the order of every list (`Listings`, `Relisting`).
`mm_check` finds the first fault of any heap that is laid out at all. `mm_realloc` is modelled as coded: its guard is an unsigned subtraction, so a growing call runs the
shrinking branch with a wrapped size. The branch's statements are therefore modelled on bare 32-bit memory (`Machine`).
`Shrinking` proves that they are right for every request that shrinks; `Regrowing` and `Overgrowing` prove exactly when
they are right for one that grows: if and only if the block behind is free and the new end lies at least 16 bytes inside
it on both sides.

**The driver** (`Lab/MemoryLab/mdriver.c`). The trace replay with its range list and its check of the data after every
reallocation. That check reads bytes through plain `char` and compares them with values up to 255, so it rejects every
reallocation of an id whose low byte is 128 or more. On every trace that never grows a block and whose demand fits the
memory, the replay succeeds if and only if it has no such reallocation; the utilisation it reports never exceeds 1.

**The shell** (`Lab/ShellLab/tsh.c`). The job table as a class; main loop, SIGCHLD handler and children as interleaved
steps over a mask bit and a pending bit that does not queue, as in section 2.4 of POSIX.1-2017 System Interfaces. The
foreground can go wrong in one way only: `fg` writes the state of a job that the handler has just deleted. Otherwise the
job of a child that was never stopped is in the foreground exactly while the main loop waits for it, and the prompt comes
back only after it has been reaped. Job ids are distinct only until the counter wraps.

**Buffered input** (`Lab/ProxyLab/csapp.c`). However `read` splits the stream, any mix of `rio_readnb` and
`rio_readlineb` calls delivers what a plain byte stream would.

**K-best sampling** (`Lab/MemoryLab/fcyc.c`). The online insertion keeps the k smallest samples of any sequence.

What the model takes for granted:

- Addresses are bytes. The word at byte address `a` is `cells[a]`, and only 4-aligned addresses are used. The heap starts
  at an 8-aligned address, is shorter than 2^31 bytes (config.h makes it 64 MB), and leaves out the last page of the
  32-bit address space; words are below 2^32.
- Requests are small enough that adding 15 does not wrap, nor does the sum in mem_sbrk's test (`Servable`, for a trace
  `Answerable`: always so for a heap below 2^31). `mm_free` and `mm_realloc` get live pointers. Clients write inside
  their payloads only.
- For the half of `GrowthServedExactly` that says a growth fails: the storage is no longer than the address space below
  it, nor than the one above it. An access outside the storage, from the heap's base to its end, counts as a failure.
- Plain `char` is signed, as it is for gcc on the 32-bit x86 that the Makefile builds for.
- `read` fails only by being interrupted. `double` is `real`. The measurements of `fcyc` are a parameter.
- `fork` happens with a free slot in the 16-slot job table. Commands, signals and process ids come from outside.
- The scan of `fgpid` in `waitfg` is one step per slot, as SIGCHLD may be delivered in it. A search for the job that `bg`
  or `fg` names is the step that finds it. What runs while SIGCHLD is blocked, the handler included, is not split further
  than at its calls of `waitpid` and its writes to the table.
- Where one C function is long, its parts are methods of their own: `ReadNeighbours`, `Gather`, `DetachNext` and
  `DetachPrev` of `coalesce`; `DetachPlainPrev` of `extend_heap_bulk`; `PlaceInList`, `Relink` and `PlaceSplit` of
  `place`; `Cut`, `Move`, `MergeNext`, `Grow` and `CopyPayload` of `mm_realloc`; `CheckLists` and `CheckBlocks` of
  `mm_check`; `Refill` and `CopyOut` of `rio_read`; `SinkFrom` of `add_sample`; `ServeRequest`, its cases, `Recheck` and
  `CheckData` of `eval_mm_valid`. The members named `...Unchecked` of `Allocator` are the same functions of the source
  without an invariant to rely on.
- `CanFollow` and `CanResize` of `Driver` are not in the source: they stop a replay at a request that `mm_realloc`, as it
  is coded, will not serve.
- The comment on `mm_realloc` (lines 379-384) promises what the code does not do. `Realloc` follows the code;
  `ReallocIntended` follows the comment.

## Model

| member | source | states |
|---|---|---|
| SizeClasses.ClassInterval | Lab/MemoryLab/mm.c:190-284 | A size belongs to class c if and only if it lies above c's lower bound and not above that of c + 1: the two tables are inverse to each other |
| SizeClasses.BoundsIncrease | Lab/MemoryLab/mm.c:241-284 | Lower bounds increase strictly with the class |
| SizeClasses.BoundsByOctave | Lab/MemoryLab/mm.c:241-284 | The bounds are 16 apart up to 0x80, four to a doubling up to 0x800, two to a doubling up to 0x2000, and 0x1000 apart from there |
| Sizing.AlignLeast | Lab/MemoryLab/mm.c:46 | The rounded request is the least multiple of 8 that covers it |
| Tags.PackDecodes | Lab/MemoryLab/mm.c:93-103 | Size, allocation bit, bulk bit and mark survive packing into a tag word, whatever their combination |
| Blocks.MergeTiling | Lab/MemoryLab/mm.c:631-646 | Joining a block with the next keeps the heap tiled |
| Blocks.SplitTiling | Lab/MemoryLab/mm.c:685-703 | Splitting a block keeps the heap tiled |
| Blocks.SetTagKeepsTags | Lab/MemoryLab/mm.c:547-550 | Writing header and footer of one block leaves those of all others as they were |
| Rings.PushFrontLinked | Lab/MemoryLab/mm.c:556-562 | The four writes of insert_block leave a well-formed ring with the new node at the front |
| Rings.DropLinked | Lab/MemoryLab/mm.c:566-569 | The two writes of remove_from_list leave a well-formed ring without the node |
| Rings.SwapLinked | Lab/MemoryLab/mm.c:687-690 | The four writes of place put the rest of a block at its parent's position in the ring, nothing else moved |
| Layouts.Layout.InsertThreaded | Lab/MemoryLab/mm.c:556-562 | After an insertion the 32 lists still hold each listed block exactly once, in the list of its class |
| Layouts.Layout.SwapThreaded | Lab/MemoryLab/mm.c:687-690 | So they do after the in-place substitution |
| Heaps.InsertHolds | Lab/MemoryLab/mm.c:556-562 | Inserting changes no tag, no other list and no held payload, and memory holds the layout with the block listed |
| Heaps.RemoveHolds | Lab/MemoryLab/mm.c:566-569 | Removing likewise, with the links read from memory |
| Heaps.RetagHolds | Lab/MemoryLab/mm.c:547-550 | Retagging a block, or tagging the union of unlisted neighbours, turns a memory of the old layout into one of the new |
| Heaps.GrowHolds | Lab/MemoryLab/mm.c:574-585 | Tagging the new last block and writing the new epilogue turns a memory of the old heap into one of the longer heap |
| Heaps.SplitHolds | Lab/MemoryLab/mm.c:696-703 | Tagging the two halves of an unlisted block gives a memory of the split layout, with all held payloads unchanged |
| Heaps.SwapHolds | Lab/MemoryLab/mm.c:684-694 | Splitting a listed block in place keeps tags, fences, all 32 rings and all held payloads |
| Coalescing.MergeAroundCoalesces | Lab/MemoryLab/mm.c:621-648 | If only one free block may touch free ones, joining it on both sides leaves no free neighbours, the same held blocks and a tiled heap |
| Merging.LeftIsSeen | Lab/MemoryLab/mm.c:623-640 | The footer before a block tells whether its left neighbour is free, and where it starts; the prologue ends the heap on the left |
| Merging.MergeSettles | Lab/MemoryLab/mm.c:645-647 | Listing the joined block by its size restores both list invariants |
| Merging.MergeLeavesHeaders | Lab/MemoryLab/mm.c:621-648 | Headers absorbed by a merge stay readable inside the result |
| Freeing.FreedBlocks | Lab/MemoryLab/mm.c:365-376 | A freed block is the only one that may touch free neighbours, and keeps its size and bulk tag |
| Freeing.FreeStale | Lab/MemoryLab/mm.c:365-376 | After free and coalesce the stale header of the freed block still leads to its right neighbour or to the joined block's end |
| Extending.StretchedBlocks | Lab/MemoryLab/mm.c:602-606 | A last free block that takes in the new space leaves a tiled heap where only its left side may touch a free block |
| Extending.ListedLow | Lab/MemoryLab/mm.c:608-612 | A bulk block may be listed in any class whose lower bound it exceeds, and both list invariants hold |
| Fitting.HigherFits | Lab/MemoryLab/mm.c:653-669 | Every block listed above the request's class is large enough, bulk or not |
| Fitting.HigherHeadTaken | Lab/MemoryLab/mm.c:658-666 | If the search leaves its first class it takes the head of the first non-empty list |
| Fitting.UnfoundIsBulk | Lab/MemoryLab/mm.c:653-669 | If the search fails, every free block that is large enough is bulk and listed in a lower class |
| Placing.SplitCoalesced | Lab/MemoryLab/mm.c:674-709 | Allocating the low end of a block whose left neighbour may be free leaves no two free blocks in touch |
| Placing.SwapSettles | Lab/MemoryLab/mm.c:683-694 | The list a bulk rest inherits still suits it |
| Placing.InListDone | Lab/MemoryLab/mm.c:683-694 | The branch's writes in the order of the code amount to the in-place substitution, with every invariant kept |
| Placing.SplitDone | Lab/MemoryLab/mm.c:696-703 | The other splitting branch restores tiling, list invariants and coalescing |
| Starting.EmptyHolds | Lab/MemoryLab/mm.c:301-324 | What mm_init writes is a heap of no blocks and 32 empty lists |
| Walking.HeadersTileHeap | Lab/MemoryLab/mm.c:113-114 | Following header sizes from the first block visits exactly the blocks, in order, up to the epilogue |
| Walking.WalkFreed | Lab/MemoryLab/mm.c:443-450 | After freeing the block at hand, the header left there leads on to a boundary or to another stale header, and no held block is skipped |
| Walking.NothingHeld | Lab/MemoryLab/mm.c:443-450 | With nothing held the heap is empty or a single free block that spans it |
| Payloads.PayloadHolds | Lab/MemoryLab/mm.c:430-433 | Writing into a held payload touches no tag, no link and no other payload |
| Payloads.StretchDone | Lab/MemoryLab/mm.c:418-422 | A held block takes over the free block behind it, all invariants kept, and the block then behind it is not free |
| Guards.GuardAgrees | Lab/MemoryLab/mm.c:405-415 | The unsigned guard means what its comment says if and only if the call does not grow the block |
| Guards.GrowthUnreachable | Lab/MemoryLab/mm.c:405-435 | One of the first two branches is always taken |
| Guards.GrowthShrinks | Lab/MemoryLab/mm.c:405-412 | A concrete growing call, from 16 bytes to 112, that takes the shrinking branch |
| Regrowing.CutCoalesces | Lab/MemoryLab/mm.c:406-411 | A growing call that ends inside a free block behind enters and leaves the last list with a wrapped size, and then joins the block behind, unless the head of that list is hit |
| Regrowing.GrowthServed | Lab/MemoryLab/mm.c:386-412 | With room behind, a growing call is served in place by the code as it is: exact size, same address and bulk tag, every invariant, every payload kept |
| Regrowing.CutStrays | Lab/MemoryLab/mm.c:406-411 | Growing by 8 bytes into a free block overwrites its links, and the code then leaves the storage |
| Regrowing.CutSpoils | Lab/MemoryLab/mm.c:406-411 | If less than 16 bytes of the free block would be left, the word behind it is overwritten and reads as free |
| Overgrowing.ServedNeedsRoom | Lab/MemoryLab/mm.c:379-384 | No heap at all serves a growth in place unless the block behind is free and reaches the new end |
| Overgrowing.GrowthServedExactly | Lab/MemoryLab/mm.c:386-435 | A growing call is served if and only if the block behind is free and the new end lies at least 16 bytes inside it on both sides |
| Allocators.Allocator.Init | Lab/MemoryLab/mm.c:301-324 | Succeeds if and only if 272 bytes are left, and sets up the empty heap; otherwise nothing changes |
| Allocators.Allocator.InsertBlock | Lab/MemoryLab/mm.c:556-562 | The new memory holds the layout with the block at the head of its class's list |
| Allocators.Allocator.RemoveFromList | Lab/MemoryLab/mm.c:566-569 | The new memory holds the layout without the block in its list, the order of all others unchanged |
| Allocators.Allocator.SetBoundaryTag | Lab/MemoryLab/mm.c:547-550 | Exactly header and footer are written; the footer's place comes from the header just written |
| Allocators.Allocator.Coalesce | Lab/MemoryLab/mm.c:621-648 | Joins a block with its free neighbours, restores all list invariants and coalescing, and changes no held block or payload; the layout it leaves is known exactly |
| Allocators.Allocator.Free | Lab/MemoryLab/mm.c:365-376 | Exactly the freed block leaves the held ones, no other payload changes, and the driver's record of it is dropped. The block it is now part of heads the list of its size's class, its free neighbours have left their lists, all other blocks keep list and order; a block with no free neighbour keeps its bulk tag; every request up to the freed size can be served from a list |
| Relisting.RejoinedLists | Lab/MemoryLab/mm.c:621-648 | After listing and coalescing, the joined block heads the list of its size's class, its parts have left theirs, and every other block is where it was |
| Relisting.ReleasedLists | Lab/MemoryLab/mm.c:365-376 | So it is after mm_free |
| Relisting.ReleasedBlocks | Lab/MemoryLab/mm.c:365-376 | One free block takes the place of the freed one and its free neighbours; it keeps the bulk tag exactly if it was not joined |
| Relisting.ReleasedFits | Lab/MemoryLab/mm.c:365-376 | After mm_free the search succeeds for every request up to the freed size |
| Allocators.Allocator.ExtendHeap | Lab/MemoryLab/mm.c:574-585 | Adds the bytes as a free block joined with a free block before, and leaves exactly the layout PlainGrownLists describes; without room nothing changes |
| Allocators.Allocator.ExtendHeapBulk | Lab/MemoryLab/mm.c:591-616 | Adds a bulk block of eight times the size in the class of one, and leaves exactly the layout BulkGrownLists describes; at most its left neighbour is then free beside it |
| Relisting.PlainGrownLists | Lab/MemoryLab/mm.c:574-585 | The block with the new space heads the list of its size's class, a free block before it is part of it, and every other block is where it was |
| Relisting.BulkGrownLists | Lab/MemoryLab/mm.c:591-616 | The new bulk block takes in a last block that is free and not bulk, and no other, and heads the list of the class of an eighth of the growth |
| Relisting.BulkServed | Lab/MemoryLab/mm.c:330-358 | A small request that no list can serve leaves two bulk blocks at the end of the heap; the free one heads the list of the request's class, not of its own |
| Allocators.Allocator.FindFit | Lab/MemoryLab/mm.c:653-669 | Returns the first fitting block of the lowest class that has one, or NULL only if no listed block from the request's class on fits |
| Allocators.Allocator.Place | Lab/MemoryLab/mm.c:674-709 | Restores the full invariant from a heap where bulk blocks may touch; the block serves the request, all else held stays. Which of the three branches is taken, and the layout it leaves, is known exactly |
| Relisting.PlacedInList | Lab/MemoryLab/mm.c:682-694 | If the block is bulk and its rest is at least 16 and exceeds the lower bound of the class, both parts are bulk, the rest is at its parent's place in its parent's list, and no other list changes |
| Relisting.PlacedAnew | Lab/MemoryLab/mm.c:696-708 | Otherwise the block served has no bulk tag; a rest of at least 16 heads the list of its own size's class, a smaller one stays part of the block |
| Allocators.Allocator.PlaceInList | Lab/MemoryLab/mm.c:683-694 | The rest of a bulk block takes its parent's exact position in its list |
| Allocators.Allocator.Malloc | Lab/MemoryLab/mm.c:330-358 | NULL exactly for size 0 or when neither a listed block nor the remaining memory serves; then nothing changes. Otherwise a new block of size + 8 to size + 23 bytes, chosen by first fit, placed as Place has it in the heap as found or as extended, all other payloads unchanged |
| Allocators.Allocator.Exit | Lab/MemoryLab/mm.c:443-450 | Terminates although it walks through stale headers, frees every held block and its record, and leaves at most one free block |
| Allocators.Allocator.CutUnchecked | Lab/MemoryLab/mm.c:406-412 | The branch's statements, on any memory, do what the bare-memory model of them says |
| Shrinking.CoalesceRuns | Lab/MemoryLab/mm.c:621-648 | On bare memory, coalesce joins a free block with its free neighbours on both sides and restores every invariant |
| Shrinking.CutShrinks | Lab/MemoryLab/mm.c:405-412 | On bare memory, the branch serves every shrinking request: exact size, same address and bulk tag, every invariant, all payloads that remain |
| Shrinking.CutLists | Lab/MemoryLab/mm.c:405-412 | What a shrink leaves over, joined with a free block behind it, heads the list of its size's class; all other blocks keep list and order |
| Regrowing.GrownTakesOver | Lab/MemoryLab/mm.c:405-412 | After a growth with room behind, the free block behind has left its list, and what is left of it heads the list of its own size's class |
| Allocators.Allocator.Cut | Lab/MemoryLab/mm.c:406-412 | One list of statements for both kinds of request: in order, with an exact layout, after a shrink or a growth with room behind, and otherwise outside the storage or explained by no layout |
| Allocators.Allocator.Realloc | Lab/MemoryLab/mm.c:386-415 | As coded, for every size: acts as malloc, as free, shrinks in place to the exact size if 16 bytes or more are left over and else changes nothing, and grows in place with room behind; any other growing call leaves the storage or a heap that no layout explains |
| Allocators.Allocator.ReallocIntended | Lab/MemoryLab/mm.c:379-436 | With the comparison the comment describes: preserves the smaller of both payloads, moves the block only if the next one cannot make up the size, leaves it exactly as large as asked if 16 bytes or more are left over, calls itself at most once, and goes wrong exactly if it has to move and mm_malloc returns NULL |
| Allocators.Allocator.CheckLists | Lab/MemoryLab/mm.c:466-493 | The first pass stops at the first listed block, in list order, that reads as allocated or does not suit its class; without one it marks every listed block |
| Allocators.Allocator.CheckBlocks | Lab/MemoryLab/mm.c:495-523 | The second pass stops at the first block, in order of address, that touches a free block on its left, not both bulk, or is free and unmarked; without one it erases every mark |
| Allocators.Allocator.Check | Lab/MemoryLab/mm.c:456-544 | On every heap whose words hold a layout, but for listed blocks that read as allocated: reports its first fault; without one it leaves memory as it was, otherwise the marks of listed blocks |
| Checking.NoErrorExactly | Lab/MemoryLab/mm.c:456-544 | It reports no error if and only if no listed block reads as allocated, every free block is listed, in a class that suits it, and free blocks that touch are bulk blocks |
| Checking.ReportMeans | Lab/MemoryLab/mm.c:456-544 | What each of the four errors says of the heap, and that faults of the lists come before those of the blocks |
| Checking.ReportUnique | Lab/MemoryLab/mm.c:456-544 | A heap has one report |
| Allocators.Allocator.CheckValid | Lab/MemoryLab/mm.c:456-544 | On every valid heap it reports no error and leaves memory as it was |
| Checking.MarkedNode | Lab/MemoryLab/mm.c:471-492 | Marks set so far, and headers that read as allocated, do not disturb what else the first pass reads of a listed block |
| Checking.MarkedAround | Lab/MemoryLab/mm.c:500-521 | Marks do not disturb what the second pass reads of a block and the one before it |
| MemLib.Heap.ResetBrk | Lab/MemoryLab/memlib.c:48-51 | The break returns to the start |
| MemLib.SbrkTestExact | Lab/MemoryLab/memlib.c:62 | The test tells whether the heap would overrun if and only if the pointer sum does not wrap |
| MemLib.Heap.Sbrk | Lab/MemoryLab/memlib.c:58-69 | Without a wrap, returns the old break and moves it, or fails with ENOMEM and moves nothing, for negative increments too; with one, moves the break below the heap |
| Gaps.SizesFillHeap | Lab/MemoryLab/mm.c:301-376 | Block sizes add up to the heap between its first block and the break |
| Gaps.EveryAddressOwned | Lab/MemoryLab/mm.c:301-376 | Every address of the heap lies in exactly one block |
| Gaps.FreeIsMaximalGap | Lab/MemoryLab/mm.c:621-648 | A free block is bounded on both sides by a held block or the heap's end |
| Gaps.PartitionDetermined | Lab/MemoryLab/mm.c:621-648 | The held extents and the break alone determine every extent and allocation bit |
| Replays.HeldDeterminesPartition | Lab/MemoryLab/mm.c:365-376 | Two heaps of one range that hold the same blocks are partitioned alike, whatever calls led there |
| Replays.MallocThenFree | Lab/MemoryLab/mm.c:330-376 | A malloc served without extension and undone by its free restores every extent and allocation bit |
| Replays.FreeEach | Lab/MemoryLab/mm.c:365-376 | Exactly the blocks freed leave the held ones, in any order, and no other payload changes |
| Replays.FreeInTwoOrders | Lab/MemoryLab/mm.c:365-376 | Freeing the same blocks in two orders leaves two heaps with the same extents and allocation bits |
| Replays.FreeThenMalloc | Lab/MemoryLab/mm.c:330-376 | Freeing a block between held ones and asking for as much again returns the same address, and moves nothing |
| Replays.FirstRequest | Lab/MemoryLab/mm.c:330-358 | The first request on a fresh heap: up to 504 bytes it gets an eighth of a bulk block, above that a block alone; addresses, sizes and lists are given |
| Replays.SmallThenLarger | Lab/MemoryLab/mm.c:330-358 | A concrete run: after a request of 8 bytes, one of 100 is not served from the 112 bytes left of the bulk block, but from a longer heap, 400 bytes above its start |
| Replays.FreedIsReused | Lab/MemoryLab/mm.c:330-376 | A concrete run: of three blocks of 100 bytes the second is freed, and returned for the next request of 100 |
| Replays.GrowthCanFail | Lab/MemoryLab/mm.c:386-435 | A concrete run: the first block of a fresh heap, 1008 bytes up to the break, is not grown to 2008 |
| Ranges.WithoutOneMore | Lab/MemoryLab/mm.c:55-71 | Removing records one at a time removes them all, in any order |
| Ranges.RangeList.RemoveRange | Lab/MemoryLab/mdriver.c:435-448 | Unlinks the first record that starts at the address, and no other |
| RangeChecks.AllRemoved | Lab/MemoryLab/mdriver.c:435-448 | Removing every recorded payload empties the list |
| Driver.EndpointTestExact | Lab/MemoryLab/mdriver.c:409-411 | The overlap test finds exactly the records that share a byte with the new payload, other than one strictly inside it |
| Driver.AddRange | Lab/MemoryLab/mdriver.c:382-430 | Accepts exactly the aligned payloads inside the heap that the endpoint test passes, and records those only |
| Driver.AcceptableExactly | Lab/MemoryLab/mdriver.c:382-430 | So a payload passes if and only if it is aligned, inside the heap, and shares no byte with a recorded one, unless it has that one strictly inside it |
| Driver.NewPayloadAcceptable | Lab/MemoryLab/mdriver.c:382-430 | Every payload this allocator hands out passes |
| Stamps.FillLowSplits | Lab/MemoryLab/mdriver.c:635 | A word that memset covers in part gets its low bytes and keeps the bytes above them |
| Stamps.MemSet | Lab/MemoryLab/mdriver.c:635 | Each of the requested bytes of the payload, and no other, is set; the allocator's invariant and every other payload stay |
| Stamps.CheckData | Lab/MemoryLab/mdriver.c:663-671 | The comparison succeeds if and only if there is nothing to compare, or the value is below 128 and each byte holds it |
| Driver.ServeRealloc | Lab/MemoryLab/mdriver.c:642-677 | A reallocation that mm_realloc serves passes every check if and only if the low byte of its id is below 128 |
| Driver.NotGrowingResizable | Lab/MemoryLab/mdriver.c:642-677 | mm_realloc serves every request for no more than the id has, both rounded up |
| Driver.EvalMmValid | Lab/MemoryLab/mdriver.c:587-706 | On every trace: if memory runs out the check fails; if it fails otherwise, at a reallocation of an id whose low byte is 128 or more; if it succeeds there is none, the range list is empty and the heap all free; or the replay stops before a request that grows a block without room behind it |
| Driver.EvalNeverGrowing | Lab/MemoryLab/mdriver.c:587-706 | On a trace that grows no block and whose demand fits, the check succeeds if and only if no reallocation is of an id whose low byte is 128 or more |
| Driver.DataCheckCanFail | Lab/MemoryLab/mdriver.c:663-671 | A concrete trace, of an allocation and a reallocation of 8 bytes for id 128, fails the check although the data is kept |
| Driver.InUseFits | Lab/MemoryLab/mdriver.c:719-799 | Bytes in use never exceed the heap |
| Driver.EvalMmUtil | Lab/MemoryLab/mdriver.c:719-799 | The result is the highest of all running totals of requested bytes over the heap size, between 0 and 1, on every trace followed to its end |
| Traces.HighWaterHighest | Lab/MemoryLab/mdriver.c:719-799 | The mark, which is compared after allocations and reallocations only, is reached by some total and exceeded by none |
| Driver.TotalIsInUse | Lab/MemoryLab/mdriver.c:719-799 | The running total is the sum of the sizes in use, if no request allocates under an id in use |
| Traces.TracksAlloc | Lab/MemoryLab/mdriver.c:637-640 | After an allocation the driver's tables still map each id in use to its own block |
| Traces.TracksResize | Lab/MemoryLab/mdriver.c:674-677 | So they do after a reallocation in place, with the new size |
| Samplers.SortSorts | Lab/MemoryLab/fcyc.c:67-88 | The reference order of all samples is sorted and loses none |
| Samplers.PrefixIsSmallest | Lab/MemoryLab/fcyc.c:67-88 | Its first n are n smallest samples: the rest is at least as large and makes up the others |
| Samplers.KeepSmallest | Lab/MemoryLab/fcyc.c:69-76 | How one more sample changes the k smallest: it enters in its place, or only if below the k-th, which it displaces |
| Samplers.Sampler.SinkFrom | Lab/MemoryLab/fcyc.c:81-87 | The swaps insert the value into the sorted values before it, and touch nothing behind |
| Samplers.Sampler.AddSample | Lab/MemoryLab/fcyc.c:67-88 | After any samples the table is the k smallest of them in order |
| Samplers.Sampler.Fcyc | Lab/MemoryLab/fcyc.c:129-168 | The result is the least of all measurements taken; sampling stops at the first sample at which the k smallest are within the tolerance or the limit is reached |
| Rio.LineLengthExact | Lab/ProxyLab/csapp.c:655-675 | A line is the longest prefix within the limit through the first newline, uniquely |
| Rio.Descriptor.Read | Lab/ProxyLab/csapp.c:590-592 | What a read delivers is the front of the unread stream, of any length from 1 to the request; 0 only at its end |
| Rio.Reader.Refill | Lab/ProxyLab/csapp.c:589-600 | Retries interrupted reads; buffered plus unread bytes stay the same, and the buffer is empty only at the end |
| Rio.Reader.ReadSome | Lab/ProxyLab/csapp.c:585-610 | Delivers a front slice of the pending bytes, at least one if there are any |
| Rio.Reader.ReadNb | Lab/ProxyLab/csapp.c:629-648 | Delivers exactly the next n bytes, or all there are |
| Rio.Reader.ReadLineb | Lab/ProxyLab/csapp.c:655-675 | Delivers exactly one line and a terminating zero; the result is its length if newline-ended, 0 at immediate end, length + 1 otherwise |
| Rio.LineRecovered | Lab/ProxyLab/csapp.c:655-675 | A caller can recover the line from the result and the buffer |
| Rio.SlicesAreConsecutive | Lab/ProxyLab/csapp.c:585-675 | What any calls deliver, followed by what is left, is the stream |
| Rio.RunCalls | Lab/ProxyLab/csapp.c:585-675 | Any mix of calls delivers what a plain stream would, for every way read splits it |
| Jobs.JobTable.GetJobPid | Lab/ShellLab/tsh.c:533-542 | The first slot of the pid, or none |
| Jobs.JobTable.AddJob | Lab/ShellLab/tsh.c:479-502 | Fills the first free slot, and no other, with pid, state and the next id, which then advances with its wrap; fails, changing nothing, exactly without a slot or for a pid below 1 |
| Jobs.JobTable.LargestJid | Lab/ShellLab/tsh.c:468-476 | The largest job id in the table, attained by some slot, or 0 |
| Jobs.JobTable.DeleteJob | Lab/ShellLab/tsh.c:505-520 | Clears the pid's slot, and no other; the next id exceeds every id left, and is 1 or one past some id left. Without such a slot nothing changes |
| Jobs.JobTable.FgPidOf | Lab/ShellLab/tsh.c:523-530 | The pid of the first foreground slot, or 0 if there is none |
| Jobs.DeletedAhead | Lab/ShellLab/tsh.c:505-520 | Deleting a job keeps ids distinct, and sets the next id ahead of all that are left, whatever it was |
| Jobs.AddedDistinct | Lab/ShellLab/tsh.c:479-502 | Adding a job keeps ids distinct if and only if no job has the next id; the next id stays ahead of all exactly if it does not wrap |
| Jobs.FilledAdds | Lab/ShellLab/tsh.c:479-502 | Adding one job after the other to an empty table gives ids 1 to 16 |
| Jobs.JidsCanRepeat | Lab/ShellLab/tsh.c:479-520 | A concrete run: sixteen jobs are added, two end, two are added, and the second of these has the id of the first job |
| Reaping.RunInv | Lab/ShellLab/tsh.c:184-227 | In every state of every run the blocking spans fork to addjob, table and children agree, and whatever is reportable is on its way to be reaped |
| Reaping.NothingLeftUnreaped | Lab/ShellLab/tsh.c:387-413 | Whenever SIGCHLD is neither pending nor handled no terminated child is unreaped, every job is an unreaped child, and every child but one just forked has its job |
| Reaping.JobsDistinct | Lab/ShellLab/tsh.c:200-219 | No child ever has two jobs |
| Reaping.StoppedJobFound | Lab/ShellLab/tsh.c:406-409 | The handler never dereferences a null job |
| Foreground.ForegroundExactly | Lab/ShellLab/tsh.c:351-357 | In a run that ends at the prompt, at most one job is ever in the foreground and none at a prompt, if and only if no state write of fg hits a slot whose job is gone |
| Foreground.NoStrayOrderly | Lab/ShellLab/tsh.c:351-357 | The one direction for every run, wherever it stops |
| Foreground.ForegroundHeld | Lab/ShellLab/tsh.c:217-223 | In every run, while a foreground command is being started or waited for, its job is in the foreground or has been stopped |
| Foreground.WaitsForForeground | Lab/ShellLab/tsh.c:367-374 | In every run without a stray state write, waitfg returns to the prompt only when its job is gone or has been stopped |
| Foreground.PromptAfterReaping | Lab/ShellLab/tsh.c:367-374 | So the prompt comes back after a foreground command that was never stopped only when it has been reaped |
| Foreground.StateExactly | Lab/ShellLab/tsh.c:217-223 | In every run without a stray state write, the job of a child that was never stopped is in the foreground while the main loop is concerned with it, and in the background otherwise |
| Foreground.WaitEnds | Lab/ShellLab/tsh.c:367-374 | Once no job is in the foreground, waitfg can take a step, and each step brings it nearer to the prompt |
| Foreground.AtMostOneForeground | Lab/ShellLab/tsh.c:217-223 | At most one job is in the foreground, and none at a prompt, in every run where SIGCHLD is not delivered between do_bgfg's lookup and its state write; there a job is in the foreground exactly if the main loop is concerned with it and it has not been stopped |
| Foreground.StopsAreShown | Lab/ShellLab/tsh.c:406-409 | In such a run, whenever SIGCHLD is neither pending nor handled, the job of every stopped child is marked as stopped |
| Foreground.ForegroundCanStray | Lab/ShellLab/tsh.c:327-357 | Without that condition a concrete run leaves a foreground slot without a process at the prompt |

## Left out

- Allocators.Allocator.Realloc: a growing call that accesses words outside the storage ends as `Wild`, which says nothing
  about the memory it leaves; Overgrowing.GrowthServedExactly counts such a call as not served.
- Allocators.Allocator.ReallocIntended: states the growing half for the comparison that the comment on mm_realloc
  describes, not for the code. What follows the copy to address 0, if mm_malloc returns NULL, is not part of it.
- Driver.EvalMmValid: says nothing about what follows a reallocation that grows a block without room behind it, since
  mm_realloc then leaves a heap no layout explains.
- Driver.EvalMmUtil: says nothing about what follows such a reallocation either.
- Allocators.Allocator.Check: says nothing about heaps whose lists or tags are broken in any other way than by a listed
  block that reads as allocated, nor about what mm_check prints.
- A full job table, and children whose addjob fails.
- addjob's copy of the command line, listing jobs, builtin commands other than bg and fg, SIGINT and SIGTSTP forwarding.
- The allocator's ancestors and variants (mm_8.c, mm_16.c, mm_16g.c, mm_32g.c): weaker versions or copies of mm.c.
- mem_deinit, the page size, and the driver's speed measurement, libc comparison, scores, options and trace files.
- fcyc's cache clearing, timer compensation, and the freeing of its table at the end.
- rio errors other than interruption, the unbuffered rio functions and the remaining wrappers of csapp.c.
- The proxy's cache, HTTP handling and sockets, the clock and timer code, kernel modules and homework programs.
