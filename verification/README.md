# Verified models of System-Software

A Dafny model of the parts of this repository that are hard to get right, with proofs of what
they are for. `dafny verify dfyconfig.toml` checks the whole project.

| part | files |
|---|---|
| boundary-tag heap, first fit and next fit | `BlockList`, `Requests`, `Serving`, `TagMemory`, `Overruns`, `FirstFitModel`, `FirstFit`, `HeapClient`, `NextFitModel`, `NextFit` |
| buddy allocator | `BuddyModel`, `BuddyFill`, `Rings`, `Buddy`, `BuddyMerge` |
| threaded stock server | `Threads`, `ConnBuffer`, `ConnCalls`, `ConnQueue`, `StockLocks`, `StockReplies`, `StockSequential`, `StockBound` |
| stock table, its text form, sequential server | `StockTree`, `StockText`, `StockFile`, `StockServer` |
| Rio buffered reader | `Rio` |
| 64-bit calculator | `Adder` |
| shared arithmetic, the machine, `mem_sbrk` | `Powers`, `Bits`, `Machine` |

## How the models are built

**Boundary-tag heap.** Memory is an array of bytes, words are four bytes, least significant first,
and every navigation step is computed from stored sizes as in the C macros. A ghost list of blocks
`(bp, size, alloc)` says what the memory means (`TagMemory.Encodes`); each method is proved to do to
the memory what a small function does to the list (`BlockList`, `FirstFitModel`, `NextFitModel`), and
what holds after every run of calls is proved about those functions. Addresses are offsets from the
start of the heap region, which is taken to be 8-byte aligned; NULL is 0 and a failed `mem_sbrk` is -1.
The first-fit branch is the compiled one (`NEXT_FITx` is defined, not `NEXT_FIT`). The system is a parameter
(`Machine.System`): the width of `size_t` and of addresses, 32 or 64 bits (the next-fit Makefile builds for
32, the first-fit file comes without one), the address of the region and its size. The argument of `mem_sbrk`
is a 32-bit `int`, and its test compares addresses, which wrap. `mm_malloc` is modelled at every size of the
width. Three things can distort a request: the rounding wraps, a large amount reaches `mem_sbrk` and the
4-byte tags as a smaller one, or the address sum wraps and passes the test. `Requests.Honest` is exactly the
set of requests that none of them harms, told from the size, the block the search finds and the break; the
promise they keep (`Serving.Kept`) is NULL, or a pointer with `size` bytes below the end of the region, and the
break inside it. For the others `Allocator.Malloc` says which pointer comes back, that all live payloads are
untouched, and in exactly which cases the tags still describe a heap; only requests that go astray, whose tags
are written outside the region, are excluded from it. Runs are made of honest requests. What follows the search
is the same in both allocators and stated once (`Serving`, `Overruns`); they also share one `coalesce` and one
`place`: their copies differ only in reading the size of a free next block from its header or its footer,
which the tags make equal.

**Threads.** The connection buffer and the stock locks are systems of steps: any number of threads,
each with a program counter, one atomic step per semaphore operation, load or store. Histories (what
entered, what left, what was replied) are extra fields that no step reads. Runs are arbitrary
sequences of enabled steps. What the histories hold is tied to the calls made in the run: `ConnCalls` says
that what enters the buffer is what callers handed in, `StockReplies` that every order taken on is answered in
turn and truly. That calls can run to their end at all is shown by `ConnQueue` and `StockSequential`, which build
the runs: made one after the other, calls use the buffer as a queue, and the threaded server answers like the
sequential one. An idle thread may start any operation at any time, which includes
everything the real threads do. Counts are `int`s: a step whose sum is no `int`, which C leaves undefined, is
no step here, so all statements are about runs without one. A sync signal in flight is counted in `handlers` from the `kill` to the
handler's `sem_post`.

**Buddy allocator.** List links are two arrays; node `k` is the head of list `k`, the following nodes are
the pages. `MAX_ORDER` is a parameter.

**Stock table.** Nodes live in a growing store and a pointer is a node's number. Records hold `int`s, and the
sum in `modify` wraps as it does when compiled.

**Rio.** The kernel is a byte stream plus a script of how the coming `read` calls behave (interrupted,
failed, at most k bytes); the results hold for every script.

**Where code and comments disagree**, the code is modelled. The headers of the next-fit and buddy files
still describe the naive allocator they started from. The comments in the threaded `show`, `sell` and `buy`
promise that readers and writers wait for each other; `StockLocks.ExclusionExactly` says when they do.
Where a promise holds only under a condition, a lemma gives the exact one: request sizes
(`FirstFitModel.HonestExactly`, `NextFitModel.HonestExactly`), next-fit refusals (`NextFitModel.MissedFitExactly`), buddy orders
(`Buddy.PastTheListsExactly`), saving and loading (`StockText.SaveLoadExactly`), the subtraction flag
(`Adder.FalseAlarmExactly`), and for the threaded server non-negative counts
(`StockLocks.NonNegativeExactly`, and `StockBound.LowestCountExactly` for how far they can fall) and the
separation of readers and writers (`StockLocks.ExclusionExactly`).

## Model

| member | source | states |
|---|---|---|
| BlockList.SplitKeeps | CSE4100/vm/malloc/mm.c:278-294 | placing a block keeps the tiling and the no-two-free-neighbours rule, adds exactly one live block at the same address, and wastes at most 8 bytes beyond the adjusted size |
| BlockList.MergeKeeps | CSE4100/vm/malloc/mm.c:158-197 | merging a freed block with its free neighbours keeps the tiled range, leaves no two free neighbours and loses no live block |
| BlockList.UnionTiles | CSE4100/vm/malloc/mm.c:168-187 | the merged block spans exactly the freed block and its free neighbours, its size is the sum of theirs |
| BlockList.FreeKeeps | CSE4100/vm/malloc/mm.c:134-151 | freeing removes exactly one block from the live set and keeps the heap well formed |
| BlockList.GrowKeeps | CSE4100/vm/malloc/mm.c:252-269 | growing keeps the heap well formed and the live blocks, and ends in a free block at least as large as the growth |
| BlockList.Canonical | CSE4100/vm/malloc/mm.c:134-197 | a coalesced tiling is determined by its live blocks alone |
| BlockList.FreeUndoesSplit | CSE4100/vm/malloc/mm.c:134-197 | freeing what was just placed restores the block list, cut or not |
| BlockList.AllFreeIsOneBlock | CSE4100/vm/malloc/mm.c:134-197 | with nothing live the heap is one free block of heap size minus 16 |
| BlockList.TotalOfTiling | CSE4100/vm/malloc/mm.c:134-197 | the block sizes add up to the tiled range: no byte is lost or counted twice |
| Requests.AdjustRoom | CSE4100/vm/malloc/mm.c:109-113 | the adjusted size is a multiple of 8, at least 16, with room for the request beside header and footer, and for sizes above 8 wastes less than 8 bytes |
| Requests.AdjustWrapped | CSE4100/vm/malloc/mm.c:109-113 | when the rounding wraps the block asked for has 0 or 8 bytes, so no payload, and the heap would grow by one chunk |
| Requests.Mislead32Exactly | mymalloc_nextfit/memlib.c:58-70 | built for 32 bits a request whose rounding does not wrap is treated as asked exactly if the address sum does not wrap |
| Requests.HonestGrowth | CSE4100/vm/malloc/mm.c:258-260 | for an honest request that needs to grow the break is moved, by the right amount, exactly when that stays below the limit |
| TagMemory.TagsAreBits | CSE4100/vm/malloc/mm.c:28-36 | the arithmetic tags are the or and the masks of `PACK`, `GET_SIZE` and `GET_ALLOC` |
| TagMemory.Put | CSE4100/vm/malloc/mm.c:31-32 | reading a stored word gives it back; no other byte changes |
| TagMemory.Rebuild | CSE4100/vm/malloc/mm.c:134-294 | rewriting the tags of one stretch of blocks encodes the list with that stretch replaced |
| TagMemory.PrevUndoesNext | CSE4100/vm/malloc/mm.c:43-44 | at every block, stepping to the next block and back returns to it |
| TagMemory.Neighbours | CSE4100/vm/malloc/mm.c:160-162 | what the tags around a block say, prologue and epilogue included |
| TagMemory.Coalesce | CSE4100/vm/malloc/mm.c:158-197 | all four cases turn the memory of a list into the memory of the merged list, give the merged block, and touch only its bytes |
| TagMemory.CoalesceNext | CSE4100/vm/malloc/mm.c:168-172 | case 2 tags the union of the block and its successor |
| TagMemory.CoalescePrev | CSE4100/vm/malloc/mm.c:174-179 | case 3 tags the union of the predecessor and the block |
| TagMemory.CoalesceBoth | CSE4100/vm/malloc/mm.c:181-187 | case 4 tags the union of all three |
| TagMemory.Place | CSE4100/vm/malloc/mm.c:278-294 | the tags `place` leaves for every adjusted size, larger than the block included: cut at the stored size or given away whole; no other byte changes |
| TagMemory.StoredRest | CSE4100/vm/malloc/mm.c:283-288 | the `size_t` difference, wrapped or not, stores as the block size minus the stored size asked for |
| TagMemory.PlacedEncoded | CSE4100/vm/malloc/mm.c:278-294 | for a size that fits those tags encode the list with the free block replaced by its pieces |
| TagMemory.InitTags | CSE4100/vm/malloc/mm.c:71-74 | padding, prologue and epilogue encode the empty heap |
| TagMemory.Extend | CSE4100/vm/malloc/mm.c:262-268 | after the break moved by the stored part of the amount: one free block over it and a free last block, and a new epilogue; for 0 bytes a freed epilogue and a cleared last footer |
| TagMemory.Extended | CSE4100/vm/malloc/mm.c:252-269 | for an amount that is stored whole those tags encode the grown list; live payloads keep their bytes |
| TagMemory.CoalesceTags | CSE4100/vm/malloc/mm.c:158-197 | from the tags around a free block the four cases tag the union with its free neighbours and touch only its bytes |
| TagMemory.Release | CSE4100/vm/malloc/mm.c:141-150 | clearing the bits and coalescing encodes the list with the block freed; all other payloads keep their bytes |
| TagMemory.Occupied | CSE4100/vm/malloc/mm.c:278-294 | placing a size that fits encodes the split list and keeps every live payload |
| Overruns.SameWalk | CSE4100/vm/malloc/mm.c:43-44 | two heaps whose bytes agree up to a block have the same blocks up to there |
| Overruns.ShreddedExactly | CSE4100/vm/malloc/mm.c:278-294 | after placing 0 or 8 bytes, which only a wrapped rounding asks for, the tags still describe a heap exactly if it was 8 bytes in a block of 16 |
| Overruns.OvergrownExactly | CSE4100/vm/malloc/mm.c:252-294 | after a request of which only the low 32 bits reached `mem_sbrk` and the tags, they still describe a heap exactly if the last block was free and grew by at least 16 |
| Overruns.PlaceFound | CSE4100/vm/malloc/mm.c:115-119 | `place` in the block found, at every size: all live payloads kept, and the heap served or what is left of it |
| Overruns.PlaceLast | CSE4100/vm/malloc/mm.c:121-126 | `place` after `extend_heap`, at every size that did not go astray: likewise |
| Overruns.GrowHeap | CSE4100/vm/malloc/mm.c:252-269 | `extend_heap` as both allocators use it: refused without a change, or the tags for the amount that reached `mem_sbrk` |
| Serving.HonestServed | CSE4100/vm/malloc/mm.c:115-126 | whatever the search found, an honest request gets one new live block of the size asked for, or NULL and no change |
| Serving.KeptExactly | CSE4100/vm/malloc/mm.c:115-126 | whatever the search found, the promise is kept exactly for size 0 and the honest requests |
| Serving.ServedWhere | CSE4100/vm/malloc/mm.c:115-126 | an honest request that gets a pointer gets the block found, and the break stays; or, when the heap grows, the free last block or the old break, and the break moves by the size with header and footer rounded up to 8, at least by 4096 |
| FirstFitModel.FirstFit | CSE4100/vm/malloc/mm.c:324-332 | the lowest free block that is large enough, or none |
| FirstFitModel.MallocAllocates | CSE4100/vm/malloc/mm.c:94-127 | for a request treated as asked a pointer is one new live block, none of the old ones, with room for the request; NULL changes nothing but a first initialisation |
| FirstFitModel.HonestExactly | CSE4100/vm/malloc/mm.c:94-127 | at every size: NULL or a pointer with that many bytes below the end of the region, and the break inside it, exactly for size 0 and the honest requests |
| FirstFitModel.ReallocExactly | CSE4100/vm/malloc/mm.c:203-235 | the same of `mm_realloc` to every non-zero size, whatever the pointer |
| FirstFitModel.MisledOverruns | CSE4100/vm/malloc/mm.c:94-127 | every other request gets a pointer; if the address sum wrapped the break is past the region, else the bytes asked for run past it |
| FirstFitModel.FourGigabyteRequest | CSE4100/vm/malloc/mm.c:121-126 | with a 64-bit `size_t` a request of 2^32 - 8 bytes gets the break itself, on every initialised heap |
| FirstFitModel.MallocNullExactly | CSE4100/vm/malloc/mm.c:106-124 | at every size: NULL exactly for size 0, or when no free block fits and `mem_sbrk`, comparing wrapped addresses, refuses the `int` it is given |
| FirstFitModel.HonestNullExactly | CSE4100/vm/malloc/mm.c:106-124 | for an honest request whose rounding does not wrap: exactly when no free block fits and growing by max(adjusted size, 4096) would pass the limit |
| FirstFitModel.MallocTakesLowest | CSE4100/vm/malloc/mm.c:115-119 | if any free block fits, the one handed out lies no higher and the heap does not grow |
| FirstFitModel.MallocGrowsExactly | CSE4100/vm/malloc/mm.c:121-126 | when no free block can hold the request: by how much the heap grows, told without the rounding formula, and where the new block starts |
| FirstFitModel.ReallocMoves | CSE4100/vm/malloc/mm.c:203-235 | for a live block: size 0 frees it; NULL changes nothing; otherwise the live blocks are the old ones without it and one new one with room for the size |
| FirstFitModel.FreeReleases | CSE4100/vm/malloc/mm.c:134-151 | the live blocks after freeing are those with another pointer |
| FirstFitModel.FreeUndoesMalloc | CSE4100/vm/malloc/mm.c:94-151 | freeing what `mm_malloc` just returned restores the heap, unless it had to grow |
| FirstFitModel.RunKeeps | CSE4100/vm/malloc/mm.c:66-294 | every legal run of malloc, free and realloc keeps tiling, coalescing and that the client's pointers are exactly the live blocks, each large enough |
| FirstFitModel.RunSafe | CSE4100/vm/malloc/mm.c:94-197 | in every reachable state the client's payloads are 8-byte aligned, inside the heap, as large as asked and pairwise disjoint |
| FirstFitModel.RunConserves | CSE4100/vm/malloc/mm.c:134-197 | in every reachable state the block sizes add up to the heap, no two free blocks touch, and with nothing owned there is one free block |
| FirstFitModel.HistoryForgotten | CSE4100/vm/malloc/mm.c:94-235 | two histories that leave the same live blocks and break leave the same heap |
| Machine.Sbrk | CSE4100/vm/malloc/memlib.c:40-51 | moves the break by the increment, around the end of memory if need be, or refuses and leaves it |
| Machine.AcceptsExactly | CSE4100/vm/malloc/memlib.c:44 | the test on addresses accepts exactly what fits below the end of the region and what wraps past the end of memory, which ends up below the region |
| FirstFit.Allocator.ExtendHeap | CSE4100/vm/malloc/mm.c:252-269 | the tags written and the pointer given for every amount that does not go astray; one that fits an `int` refines growing the list and keeps live payloads; on refusal nothing changes |
| FirstFit.Allocator.Init | CSE4100/vm/malloc/mm.c:66-87 | the heap after `mm_init` on an empty region of any size, also when only the first `mem_sbrk` succeeds or none, and when it returns -1 |
| FirstFit.Allocator.FindFit | CSE4100/vm/malloc/mm.c:302-335 | the walk over stored sizes terminates and finds the lowest fitting block |
| FirstFit.Allocator.Malloc | CSE4100/vm/malloc/mm.c:94-127 | at every size that does not go astray: the model's pointer and break, every live payload kept; the promise exactly for the honest requests, which leave the model's heap; after any other the tags describe a heap exactly in the cases of `Requests.Survives` |
| FirstFit.Allocator.Free | CSE4100/vm/malloc/mm.c:134-151 | refines `FirstFitModel.Free` and keeps every other live payload |
| FirstFit.Allocator.Memcpy | CSE4100/vm/malloc/mm.c:226-229 | the target holds the source bytes, nothing else changes |
| FirstFit.Allocator.Realloc | CSE4100/vm/malloc/mm.c:203-235 | fails with heap and memory untouched, or the first min(size, old payload) bytes are the old ones, all other live payloads unchanged, heap as in the model |
| FirstFit.Allocator.CheckHeap | CSE4100/vm/malloc/mm.c:357-389 | on a valid heap the checker finds nothing to complain about |
| FirstFit.Allocator.RunCalls | CSE4100/vm/malloc/mm.c:66-294 | after any legal run of calls memory encodes the model's heap and `checkheap` reports no error |
| FirstFit.PayloadWritten | CSE4100/vm/malloc/mm.c:94-127 | a client writing into its payload disturbs no tag and no other payload |
| HeapClient.StepKeeps | CSE4100/vm/malloc/mm.c:94-235 | the client's knowledge stays about its own objects and inside their sizes |
| HeapClient.Moved | CSE4100/vm/malloc/mm.c:203-235 | what a client knew about an object is in it after `mm_realloc` moved it, up to the new size |
| HeapClient.Written | CSE4100/vm/malloc/mm.c:94-127 | a write changes one byte of one object: objects do not overlap |
| HeapClient.SparedKnown | CSE4100/vm/malloc/mm.c:94-235 | a known byte stays known through every act that neither frees, moves nor overwrites it |
| HeapClient.ReallocKnown | CSE4100/vm/malloc/mm.c:203-235 | a known byte below the new size is known in the object `mm_realloc` returns, and in the old one if it returns NULL |
| HeapClient.RunKnowsLastWrite | CSE4100/vm/malloc/mm.c:66-235 | the client knows the last value written to a byte after any run that spares it |
| HeapClient.Play | CSE4100/vm/malloc/mm.c:66-235 | after any run of calls and client writes from a fresh heap every byte the client wrote and did not give up is where its pointer says |
| NextFitModel.NextFitExactly | mymalloc_nextfit/mm.c:245-275 | the search fails exactly when no free block after the rover is strictly larger and none up to it is as large |
| NextFitModel.NextFitFirst | mymalloc_nextfit/mm.c:245-275 | otherwise it gives the first acceptable block, rover to end, then start to rover |
| NextFitModel.MallocKeeps | mymalloc_nextfit/mm.c:97-124 | for a request treated as asked a pointer is one new live block with room for the request and becomes the rover; NULL changes nothing |
| NextFitModel.HonestExactly | mymalloc_nextfit/mm.c:97-124 | at every size and both widths: NULL or a pointer with that many bytes below the end of the region, and the break inside it, exactly for size 0 and the honest requests |
| NextFitModel.MisledOverruns | mymalloc_nextfit/mm.c:97-124 | every other request gets a pointer; if the address sum wrapped the break is past the region, else the bytes asked for run past it |
| NextFitModel.StrayRequest | mymalloc_nextfit/memlib.c:58-70 | built for 32 bits with 20 MB at 0xf54e2010, a fresh heap accepts 300 000 000 bytes and puts the break past the end of memory |
| NextFitModel.WrappedRequest | mymalloc_nextfit/mm.c:104-112 | built for 32 bits, a fresh heap of one chunk that may not grow hands out its block for 2^32 - 5 bytes |
| NextFitModel.MallocNullExactly | mymalloc_nextfit/mm.c:97-124 | at every size: NULL exactly for size 0 or when the search fails and `mem_sbrk`, comparing wrapped addresses, refuses the `int` it is given |
| NextFitModel.ExactFitRefused | mymalloc_nextfit/mm.c:247-258 | a fresh heap of one chunk that may not grow refuses the request its block fits exactly, where first fit serves it |
| NextFitModel.MissedFitExactly | mymalloc_nextfit/mm.c:245-275 | a request is refused although some block fits exactly when only exact fits after the rover are left and `mem_sbrk` refuses |
| NextFitModel.MallocTakesNext | mymalloc_nextfit/mm.c:97-124 | told by addresses alone: of the free blocks the search accepts, the one met first from the rover to the end and then from the start; if there is none, growth as in first fit |
| NextFitModel.FreeKeepsRover | mymalloc_nextfit/mm.c:131-137 | freeing changes the heap as in first fit and puts the rover on the free block that contains the freed one |
| NextFitModel.RunKeeps | mymalloc_nextfit/mm.c:76-137 | every legal run keeps the heap well formed, the rover at the prologue or a block start, and the client's pointers exactly the live blocks, each large enough |
| NextFitModel.RunSafe | mymalloc_nextfit/mm.c:76-137 | in every reachable state the client's payloads are 8-byte aligned, inside the heap, as large as asked and pairwise disjoint |
| NextFitModel.RoverNeverLost | mymalloc_nextfit/mm.c:76-137 | after every run from `mm_init` the rover is the prologue or starts a current block and lies inside none |
| NextFit.Allocator.Init | mymalloc_nextfit/mm.c:76-91 | initial heap with the rover at the prologue; or -1 when the region is too small, and then how far it came, the rover untouched |
| NextFit.Allocator.ExtendHeap | mymalloc_nextfit/mm.c:189-204 | the same as in first fit, and the rover moves to the new free block |
| NextFit.Allocator.FindFit | mymalloc_nextfit/mm.c:245-275 | both loops terminate and together refine `NextFitModel.NextFit`; the rover moves only on success |
| NextFit.Allocator.FindAhead | mymalloc_nextfit/mm.c:247-258 | the do-while loop finds the first strictly larger free block after the rover |
| NextFit.Allocator.FindBehind | mymalloc_nextfit/mm.c:263-274 | the second loop finds the first large enough free block up to the rover |
| NextFit.Allocator.Malloc | mymalloc_nextfit/mm.c:97-124 | at every size that does not go astray and both widths: the model's pointer and break, every live payload kept; the promise exactly for the honest requests, which leave the model's state; after any other the tags describe a heap exactly in the cases of `Requests.Survives` |
| NextFit.Allocator.Free | mymalloc_nextfit/mm.c:131-137 | refines `NextFitModel.Free`, rover included, and keeps every other payload |
| NextFit.Allocator.RunCalls | mymalloc_nextfit/mm.c:76-137 | any legal run of calls on the memory ends in the state the model's run ends in |
| BuddyModel.FirstNonEmpty | mymalloc_buddy/mm.c:313-351 | the smallest order from the one asked for whose list has a block |
| BuddyModel.Halve | mymalloc_buddy/mm.c:273-289 | replacing an aligned block by its two halves keeps a partition into aligned blocks |
| BuddyModel.ExpandKeeps | mymalloc_buddy/mm.c:267-292 | `expand` keeps free blocks and blocks in hand a partition of the pages and trades the block for one of the order asked for |
| BuddyModel.AllocKeeps | mymalloc_buddy/mm.c:293-354 | NULL exactly when every list from the order on is empty; otherwise one new aligned block, and free plus handed-out blocks still tile the pages |
| BuddyModel.ExpandExactly | mymalloc_buddy/mm.c:267-292 | `expand` returns the top of the block and puts one lower part in front of every list between the two orders |
| BuddyModel.AllocExactly | mymalloc_buddy/mm.c:293-354 | the page handed out and every list afterwards: the top of the first block of the smallest order that has one |
| BuddyModel.InitBooks | mymalloc_buddy/mm.c:215-253 | the two halves of the memory are the initial partition |
| BuddyModel.RunPartitions | mymalloc_buddy/mm.c:215-354 | after any sequence of allocations free and handed-out blocks tile all pages exactly once, each aligned to its size |
| BuddyFill.TakesTop | mymalloc_buddy/mm.c:293-354 | while the pages below a mark are free and the mark is a multiple of the block size, the block handed out ends at the mark |
| BuddyFill.RunFillsFromTop | mymalloc_buddy/mm.c:215-354 | requests in orders that do not increase, for up to all pages, all succeed and are stacked from the top of the memory downwards without a gap |
| BuddyFill.NothingLeft | mymalloc_buddy/mm.c:293-354 | with no page left every request is refused |
| Rings.AddKeeps | mymalloc_buddy/mm.c:117-126 | inserting a page after a head keeps every list a circular doubly linked list, that one with the page in front |
| Rings.DelKeeps | mymalloc_buddy/mm.c:127-138 | unlinking the first page keeps every list a circular doubly linked list, that one without it |
| Rings.BooksSeparate | mymalloc_buddy/mm.c:215-354 | no page is on two lists or twice on one |
| Buddy.Allocator.constructor | mymalloc_buddy/mm.c:215-253 | well-formed rings holding the two initial blocks |
| Buddy.Allocator.ListAdd | mymalloc_buddy/mm.c:117-126 | the links after `list_add` |
| Buddy.Allocator.ListDel | mymalloc_buddy/mm.c:127-138 | the links after `list_del` |
| Buddy.Allocator.Expand | mymalloc_buddy/mm.c:267-292 | the loop refines `BuddyModel.Expand` and keeps rings and partition |
| Buddy.Allocator.FindList | mymalloc_buddy/mm.c:313-351 | the search over list heads finds the first non-empty order and its first page |
| Buddy.Allocator.AllocPages | mymalloc_buddy/mm.c:293-354 | address 0 exactly when every list from the order on is empty; else the address of the model's block, recorded with its order, rings and partition kept |
| Buddy.Allocator.Malloc | mymalloc_buddy/mm.c:409-417 | a block of the least sufficient order, large enough, the one `alloc_pages` picks; or NULL exactly when there is none |
| Buddy.Allocator.RunOrders | mymalloc_buddy/mm.c:215-354 | any sequence of allocations on the linked lists ends where the model's run ends, rings well formed |
| Buddy.OrderFrom | mymalloc_buddy/mm.c:259-266 | the least order that holds the size, or -1 when even the largest does not |
| Buddy.MemsizeToOrder | mymalloc_buddy/mm.c:259-266 | the loop computes that order |
| Buddy.PastTheListsExactly | mymalloc_buddy/mm.c:259-299 | the order lies past the array of lists exactly for sizes above half and up to all of the memory |
| Buddy.WholeMemoryRequest | mymalloc_buddy/mm.c:259-299 | with 65536 pages a request of 16 MiB does |
| BuddyMerge.ParentIsUnion | mymalloc_buddy/mm.c:446-468 | a block and its buddy are the two halves of one aligned parent, and the buddy of the buddy is the block |
| BuddyMerge.Turn | mymalloc_buddy/mm.c:446-468 | in words of any width the xor gives the buddy, the shift the pair's number, the mask the parent's start |
| BuddyMerge.MergedContains | mymalloc_buddy/mm.c:435-469 | the merged block is aligned, contains the freed one, and stops at the first order whose bit was clear |
| BuddyMerge.MergeUp | mymalloc_buddy/mm.c:426-469 | the loop on indices computes that block, its bit index and the buddies met |
| Bits.MaskRoundsDown | mymalloc_buddy/mm.c:468 | masking off low bits rounds down to a multiple of the power of two |
| Bits.XorSibling | mymalloc_buddy/mm.c:446 | flipping bit k of a multiple of 2^k gives the neighbouring multiple in the same pair |
| ConnBuffer.StepKeeps | concurrent_stockserver/thread_based/threading.c:53-75 | every step of every thread and of the handler keeps the invariant |
| ConnBuffer.StoredWrite | concurrent_stockserver/thread_based/threading.c:56-57 | writing the newest position touches no position still to be read |
| ConnBuffer.RunDeliversInOrder | concurrent_stockserver/thread_based/threading.c:53-75 | in every interleaving connections leave in the order they got their positions, and calls of `sbuf_remove` return each exactly once, with its own address |
| ConnBuffer.RunKeepsUnread | concurrent_stockserver/thread_based/threading.c:53-75 | an unread connection is in its slot unless it is being written at that moment |
| ConnBuffer.RunBalances | concurrent_stockserver/thread_based/threading.c:33-75 | front <= rear <= front + n, and both semaphores plus the threads between their two tickets make up n |
| ConnBuffer.RunExcludes | concurrent_stockserver/thread_based/threading.c:17-29 | the mutex has at most one holder, a worker's hand-off to the signal handler included, and at most one hand-off is outstanding |
| ConnBuffer.RunNeverDeadlocks | concurrent_stockserver/thread_based/threading.c:4-75 | if nothing can move, the mutex is free and all waiting threads are removers on an empty buffer or inserters on a full one |
| ConnCalls.RunAccounts | concurrent_stockserver/thread_based/threading.c:7-75 | in every interleaving what got a position, with what insertions in progress still bring, is exactly what was handed to `sbuf_insert`; every removal has returned one connection or is in progress; every sync has been released by the handler or is in progress |
| ConnCalls.RunReturnsWhatWasInserted | concurrent_stockserver/thread_based/threading.c:53-75 | what calls of `sbuf_remove` return is among the items handed to `sbuf_insert`, each at most once, address included; when no call is in progress the rest is in the buffer |
| ConnQueue.SequentialIsQueue | concurrent_stockserver/thread_based/threading.c:7-75 | any sequence of insertions, removals and syncs by any threads that a queue of n places can serve is served by a run in which all calls return and the oldest connections come out |
| StockLocks.StepKeeps | concurrent_stockserver/thread_based/impl.c:11-70 | every step of every thread keeps locks, counters and counts consistent |
| StockLocks.RunLosesNothing | concurrent_stockserver/thread_based/binary_tree.c:35-48 | in every interleaving, once no update is between its store and its reply, each count is its initial value plus the deltas of all successful replies |
| StockLocks.RunCountsAndLocks | concurrent_stockserver/thread_based/impl.c:11-70 | `reader_n` and `writer_n` always equal the threads between increment and decrement, and no stock's lock has two holders |
| StockLocks.RunNeverStuck | concurrent_stockserver/thread_based/impl.c:11-70 | as long as a thread is inside a command and none is about to overflow a count some thread can do more than spin |
| StockLocks.RunWaitsExactly | concurrent_stockserver/thread_based/impl.c:11-41 | in every reachable state a thread passes its busy wait exactly if no thread is between the increment and the decrement of the other counter |
| StockReplies.RunAnswersAll | concurrent_stockserver/thread_based/impl.c:32-70 | every thread answers the orders it takes on, each once and in turn |
| StockReplies.RunAnswersTruly | concurrent_stockserver/thread_based/binary_tree.c:35-56 | an order is answered as not found exactly if no stock has its id; an accepted one concerns the first stock with that id |
| StockReplies.RunAnswersRightly | concurrent_stockserver/thread_based/binary_tree.c:35-48 | whoever answers that there is enough, or that there is not, was right at that thread's check of this very order |
| StockReplies.RunSumsAccepted | concurrent_stockserver/thread_based/binary_tree.c:35-48 | once no update waits for its reply, a stock's count is its initial value plus all accepted orders for its id |
| StockSequential.SequentialRun | concurrent_stockserver/thread_based/impl.c:11-70 | commands given to any threads one after the other, none forming a sum outside `int`, are served by a run with the answers of the sequential server in order and its counts for every id |
| StockLocks.TwoBuyersOversell | concurrent_stockserver/thread_based/binary_tree.c:41-47 | with two or more threads a run drives a count below zero |
| StockLocks.NonNegativeExactly | concurrent_stockserver/thread_based/binary_tree.c:41-47 | counts stay non-negative in all runs exactly when there is at most one thread |
| StockBound.RunNeverBelow | concurrent_stockserver/thread_based/binary_tree.c:35-48 | with T threads and orders for at most B shares no run takes a count below -(T - 1) * B |
| StockBound.LowestIsReached | concurrent_stockserver/thread_based/binary_tree.c:35-48 | and some run takes it exactly there, for every T and B for which that is an `int` |
| StockBound.LowestReachedExactly | concurrent_stockserver/thread_based/binary_tree.c:35-48 | for every T and every B that is an `int`: some run takes a count to -(T - 1) * B exactly if that is an `int` |
| StockBound.LowestCountExactly | concurrent_stockserver/thread_based/binary_tree.c:35-48 | as long as -(T - 1) * B is an `int`, a number is below every count of every such run exactly if it is at most that |
| StockLocks.ReaderAndWriterMeet | concurrent_stockserver/thread_based/impl.c:14-41 | with two or more threads a run has one printing while another is inside `modify` |
| StockLocks.ExclusionExactly | concurrent_stockserver/thread_based/impl.c:14-41 | the busy waits keep readers and writers apart exactly when there is at most one thread |
| StockTree.InsertOrdered | concurrent_stockserver/event_driven/binary_tree.c:4-20 | insertion keeps the tree a search tree |
| StockTree.InsertAdds | concurrent_stockserver/event_driven/binary_tree.c:4-20 | insertion adds the new record at one place in preorder and leaves all others as they were, in order |
| StockTree.Rebuild | concurrent_stockserver/event_driven/binary_tree.c:4-32 | inserting a search tree's records in preorder builds the same tree again, duplicates included |
| StockTree.FindIsFirstInserted | concurrent_stockserver/event_driven/binary_tree.c:51-59 | lookup gives the first record inserted with that id |
| StockTree.FindComplete | concurrent_stockserver/event_driven/binary_tree.c:51-59 | in a search tree lookup fails exactly for ids that no record has |
| StockTree.SetCountLocal | concurrent_stockserver/event_driven/binary_tree.c:48 | a changed count is the only difference in the whole table |
| StockTree.ModifyKeeps | concurrent_stockserver/event_driven/binary_tree.c:39-50 | for all `int`s: `ERROR` exactly when not found, success exactly when found and the true sum is a non-negative `int`, or, from a negative count, below all of them; then only that record's count changes, to the wrapped sum; otherwise nothing; order and non-negativity are kept, and from non-negative counts the sum is the true one |
| StockTree.FullStockRefuses | concurrent_stockserver/event_driven/binary_tree.c:45 | one share sold to a count of 2^31 - 1 is refused as if there were too few |
| StockTree.RunKeeps | concurrent_stockserver/event_driven/impl.c:15-27 | after any run of buys and sells each record has its count plus its accepted deltas, always a non-negative `int` |
| StockTree.ServerRun | concurrent_stockserver/event_driven/impl.c:15-27 | the same from the insertions on, for the first-inserted record of every id |
| StockText.AtoiOfDecimal | concurrent_stockserver/event_driven/stockfile_handle.c:12-14 | converting a printed integer gives it back |
| StockText.PrintIsPreorder | concurrent_stockserver/event_driven/binary_tree.c:22-32 | the recursive printer writes one line per record in preorder |
| StockText.ScanLine | concurrent_stockserver/event_driven/stockfile_handle.c:11 | one scan takes exactly one printed line and its newline |
| StockText.ReadLines | concurrent_stockserver/event_driven/stockfile_handle.c:10-16 | reading printed lines inserts exactly their records, in order |
| StockText.SaveLoadExactly | concurrent_stockserver/event_driven/stockfile_handle.c:10-23 | printing a table to a buffer and reading it back gives the same tree exactly when the text fits and it is a non-empty search tree |
| StockText.PrintIntoExactly | concurrent_stockserver/event_driven/binary_tree.c:22-32 | appending line by line runs over the buffer exactly if the whole text does not fit |
| StockText.PrintLength | concurrent_stockserver/event_driven/binary_tree.c:24-28 | a table takes at most 36 bytes per record, so up to 227 records always fit 8192 bytes |
| StockText.EmptyTableReload | concurrent_stockserver/event_driven/stockfile_handle.c:10-16 | an empty table comes back with one record made from the stale word buffers |
| StockFile.ReadLaid | concurrent_stockserver/event_driven/stockfile_handle.c:10-16 | reading any text inserts one record for every three of its words, whatever white space separates them; words missing at the end are the stale ones |
| StockFile.EveryTextIsLaid | concurrent_stockserver/event_driven/stockfile_handle.c:10-16 | every text is words and white space in this sense |
| StockFile.ReadPrinted | concurrent_stockserver/event_driven/stockfile_handle.c:10-16 | printed records come back each once and in order, with any white space before, between and after their words |
| StockFile.TrailingBlanks | concurrent_stockserver/event_driven/stockfile_handle.c:10-16 | blank lines after the last record change nothing |
| StockFile.AtoiExactly | concurrent_stockserver/event_driven/stockfile_handle.c:12-14 | white space, one sign, digits, then anything: the signed number, or 0 without digits |
| StockFile.DecimalExactly | concurrent_stockserver/event_driven/binary_tree.c:25 | `%d` prints exactly the digits of the number, no zero in front, a minus for negative numbers, no plus |
| StockFile.LineExactly | concurrent_stockserver/event_driven/binary_tree.c:25 | a printed line is three such numbers with single blanks and one newline |
| StockServer.FindCell | concurrent_stockserver/event_driven/binary_tree.c:51-59 | the pointer walk finds the record the tree lookup finds |
| StockServer.CountWritten | concurrent_stockserver/event_driven/binary_tree.c:48 | writing through the found pointer changes that record of the tree and nothing else |
| StockServer.Server.InsertCell | concurrent_stockserver/event_driven/binary_tree.c:4-20 | recursive insertion on nodes refines tree insertion and changes no node outside the subtree |
| StockServer.Server.ModifyStock | concurrent_stockserver/event_driven/binary_tree.c:39-50 | refines `StockTree.Modify`, status included |
| StockServer.Server.SellStock | concurrent_stockserver/event_driven/impl.c:15-19 | adds the amount: not found, not enough or success by whether the id exists and the wrapped sum is negative, which else becomes the count |
| StockServer.Server.BuyStock | concurrent_stockserver/event_driven/impl.c:21-27 | the same with the amount taken away, every `int` included |
| StockServer.Server.ReadStockfile | concurrent_stockserver/event_driven/stockfile_handle.c:4-17 | the loop refines `StockText.Read` |
| StockServer.Server.PrintToBuf | concurrent_stockserver/event_driven/binary_tree.c:22-36 | appends the tree's lines to the buffer, or reports that they run over it |
| StockServer.Server.SaveAndLoad | concurrent_stockserver/event_driven/stockfile_handle.c:4-23 | the buffer built for saving holds the table exactly if the text fits; loaded into a fresh server it restores the table |
| Rio.LineStopsExactly | csapp.c:871-893 | a line ends after the first newline, at the room given or at the end of the stream, whichever is first |
| Rio.RunDeliversStream | csapp.c:849-893 | any mix of calls delivers consecutive bytes of the stream, none lost, repeated or reordered |
| Rio.Reader.Refill | csapp.c:809-820 | refilling, interrupts included, changes nothing about what is still to be delivered; 0 only at end of stream |
| Rio.Reader.RioRead | csapp.c:805-830 | delivers a prefix of the undelivered bytes, not empty unless asked for 0 or at end of stream, and short only if it empties the buffer |
| Rio.Reader.ReadNb | csapp.c:849-864 | delivers exactly min(n, undelivered) bytes; on error what remains is still a tail of the stream |
| Rio.Reader.ReadLineB | csapp.c:871-893 | delivers the next line, up to and with the first newline, or maxlen - 1 bytes, or the rest of the stream, closed by a zero byte, with nothing written behind that, and returns its length; for maxlen 0 writes the zero byte and returns 0 |
| Rio.Reader.Session | csapp.c:805-893 | whatever the chunking and interrupts, a run of calls delivers what the plain stream prescribes |
| Adder.GetBitIs | CSE3030/calculator/hw1.c:15-21 | `getBit` reads the bit of the 64-bit value |
| Adder.SetBitIs | CSE3030/calculator/hw1.c:23-33 | `setBit` sets one bit of the value and leaves the other 63 alone |
| Adder.FullAdder | CSE3030/calculator/hw1.c:60-61 | carry and sum bit are the binary sum of three bits |
| Adder.Column | CSE3030/calculator/hw1.c:53-67 | one turn of the loop extends the sum by one column |
| Adder.SignsTell | CSE3030/calculator/hw1.c:69-72 | the three sign bits show signed overflow exactly |
| Adder.Calculator.Add64 | CSE3030/calculator/hw1.c:36-75 | addition modulo 2^64 whatever the uninitialised result held; the flag is set exactly on signed overflow and never cleared |
| Adder.Calculator.Complement64 | CSE3030/calculator/hw1.c:92-107 | negation modulo 2^64; the flag is set exactly for -2^63 |
| Adder.Calculator.Sub64 | CSE3030/calculator/hw1.c:109-118 | subtraction modulo 2^64; the flag is set exactly when the difference is out of range or the subtrahend is -2^63 |
| Adder.FalseAlarmExactly | CSE3030/calculator/hw1.c:109-118 | on a clear flag: a flag left clear means the true difference came back; the flag is set although the difference fits exactly for subtrahend -2^63 and a negative minuend |
| Adder.LargestFalseAlarm | CSE3030/calculator/hw1.c:109-118 | (-1) - (-2^63) comes back right with the flag set |
| Adder.SubThenAdd | CSE3030/calculator/hw1.c:36-118 | adding back what was subtracted gives the first operand again |

## Left out

- FirstFit.Allocator.Realloc: requests outside `Requests.Honest` are excluded by its precondition; which pointer they get is in `FirstFitModel.ReallocExactly`, but the code then copies into and frees from a heap whose tags may be gone.
- FirstFit.Allocator.Malloc: requests that go astray are excluded, since their tags are written to memory outside the region; so is a region below 16 bytes, where `mm_init` fails and leaves `heap_listp` at -1.
- NextFit.Allocator.Malloc: requests that go astray are excluded, likewise.
- FirstFit.Allocator.ExtendHeap: amounts that go astray are excluded; a region in the last 4112 bytes of memory, where the first chunk of `mm_init` would, is excluded throughout (`Requests.Sane`).
- NextFit.Allocator.ExtendHeap: has the same restriction.
- FirstFit.Allocator.Init: a second `mm_init` without resetting the break, which starts another heap behind the first, is not modelled.
- FirstFit.Allocator.RunCalls: ends with the first request outside `Requests.Honest`; what later calls do with a heap whose tags are gone is not modelled.
- NextFit.Allocator.RunCalls: ends with the first request outside `Requests.Honest`, likewise.
- NextFit.Allocator.Free: a NULL argument, which the code dereferences, is excluded.
- Buddy.Allocator.AllocPages: an order of `MAX_ORDER`, for which the code takes page 0's links for a list head, is excluded.
- Buddy.Allocator.Malloc: sizes whose order lies past the lists are excluded by its precondition (`Buddy.PastTheListsExactly`).
- `atoi` of a word outside `int`, which C leaves undefined: the model keeps its low 32 bits.
- BuddyMerge.MergedContains: the bits found are a parameter and the lists are not modelled.
- BuddyMerge.MergeUp: the bits found and the unlinking of the buddies are not modelled, only the indices, for orders whose `int` shifts are defined.
- `mm_realloc` of the next-fit file: it can grow over the block the rover points at and pass sizes to `mark` that are not multiples of 8, so the invariants are not properties of it.
- `mm_realloc` of the buddy file, and its free lists, bitmaps and page counter on `mm_free`: the assertions there stop whenever the buddy is at an end of its list, and the counter is decremented twice per allocation.
- The tree shape in the threaded server: `find` is a lookup by position in `StockLocks`; the tree itself is in `StockTree`, and `StockSequential` connects the two. What `show` prints there while others write is not modelled.
- Node addresses and a failing `calloc` in the stock tree: nodes are numbered in a store that always grows.
- `idle_threads` and the test that decides to sync: an idle thread may sync at any time in `ConnBuffer`, which covers it.
- The stock file on disk, which is opened without truncation.
- `rio_readn` and `rio_writen`: one loop each over a single system call, without the buffer that `Rio` is about.
- `sio_ltoa` and `sio_reverse`: used by the signal-safe output routines, which no modelled operation calls.
- The parsers of commands, `myshell`, sockets, signals other than the sync signal, timers and test drivers: their work is done by system calls whose behaviour is outside the model.
