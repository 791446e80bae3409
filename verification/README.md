# A verified model of sigma-malloc

sigma-malloc is a three-tier allocator. Buddy pools hand out blocks of 4 KiB and
more; slab caches carve blocks into small objects; requests too large for a pool
get a mapping of their own, described by two slab objects of the same allocator.
Other threads free into a lock-free stack that the owner drains. A debug build
keeps a ring of freed pointers and can list what is still held. Beside it stands a
public bump arena that draws its blocks from any allocator, and the zeroing
routines all of them use.

The model follows this structure. Each object that the source updates in place is
a class whose methods are proved against operations on values; the properties are
proved about those operations, for every input, every run and every interleaving.

| part | modules |
|---|---|
| machine arithmetic | Words |
| buddy pools | BuddyTree, BuddySpec, BuddyTheorems, BuddyAnswers, BuddyDoubleFree, BuddyLayout, BuddyAddresses, BuddyHeap; LinkedLists |
| slabs and arenas | SlabLayout, Arena, ArenaOps, ArenaBlocks, ArenaSlabs, ArenaFrees, ArenaTheorems, SlabDoubleFree, ArenaHeap, ExtentPools |
| remote frees | Remote, RemoteTheorems, ArenaCalls, ArenaAnswers |
| the allocator over all tiers | Sigma, SigmaTheorems, SigmaFrees, SigmaAnswers, SigmaRuns, SigmaHeap |
| which bytes are stored to | ArenaBytes, ArenaItems, Stores, ArenaStores, SigmaStores, Realloc |
| leak collector and freed ring | Leaks, LeakCollector, FreedRing, DebugRuns |
| bump arena | BumpSpec, BumpTheorems, BumpArena |
| zeroing | ZeroFill |

The proofs hide the definitions they do not need, so that each stays small; lemmas
with an empty body hand a single fact across such a boundary.

Terms used throughout:

- A tree node is *live* when all its proper ancestors are SPLIT. Only live marks
  mean anything: children keep stale FREE marks after coalescing and unreached
  nodes keep FULL from creation. The number of orders is a parameter.
- A pointer is *out* of an arena from the moment it is handed out until a slab or
  a pool has it back, whether a user, a push in flight, the pending stack or a
  drain has it meanwhile. It is *in hand* when it is out and on no stack, and
  *held* when it is in a user's hands; bookkeeping objects of large allocations
  are in hand but not held.
- What an allocation *claims* is its block or slot with header and padding.
- The memory source is a parameter: each call receives what the source would
  offer, and an unacceptable offer (overlapping, empty, past 2^64) stands for
  NULL. Mappings need no alignment. Addresses and sizes are naturals with the
  64-bit wrap-around written out where the source computes in `usize`. Sizes of
  structures are symbolic and constrained only by what the source relies on; the
  header of a block is taken to be at most 1 KiB. NULL is 0.
- `fixed` is the storage of `arena_t`, `sigma_allocator_t` and the static data,
  symbolic ranges apart from every extent and mapping.
- `here` says whether a free runs on the thread that owns the arena or on another,
  which then pushes onto the remote stack.

What memory holds is treated in two steps. `Stores` gives each step of the
allocator the set of bytes it stores to and shows that they are the arena's own
before or after the step; `ArenaItems` shows that no two of its records share a byte
and which records a step spares; `ArenaStores` and `SigmaStores` follow whole calls,
drains included, and show that no byte of a held pointer is among them. `Realloc`
then speaks of memories that a call changes only at those bytes.

`BuddyAnswers`, `ArenaAnswers` and `SigmaAnswers` say exactly when each call answers
NULL and from where it is served otherwise, by arithmetic on the request and by what
is handed out, pending and offered, not through the guards of the operations.

Findings about the code:

- `large_alloc` guards the size before it is rounded to a page. Requests within a
  page of 2^64 pass the guard and round to 0 bytes: `MappingBytesIff` gives the
  exact condition, `MappingBytesCanWrap` a request that does it. Such a request
  does not fit the mapping it gets (`LargePlacedIff`), so everything here takes a
  mapping of 0 bytes for a refusal; `malloc_memory_source` need not refuse it.
- A block request that no pool can hold still maps a new extent before it returns
  NULL (`BlockFailsIff`). With pools of 4 MiB that is so for 4 MiB itself:
  `sigma_alloc` then turns to the large tier and the extent stays
  (`WholePoolRequest`).
- A comment at src/arena.c:300-302 says that remote frees are reclaimed before the
  arena grows. The first attempt comes before that drain and maps an extent itself
  when the source grants one, so the arena grows while usable slots are pending
  (`GrowsBeforeDraining`); the drain comes first only on a 64th call or when no
  extent can be had (`ArenaDrainsIff`).
- The magic check of `buddy_free` stops a pointer if and only if the pool never
  handed it out (`MagicFails`), for `buddy_free` leaves the magic in place; it is
  for pools whose old headers nobody has overwritten. What a second free does then
  is `SecondFree`: it frees somebody else's block, or breaks the pool, or drops a
  block that is outstanding, unless it follows stale links first
  (`StaleLinksFollowed` is a case, and what they lead to is not modelled); a free
  is sound and follows none if and only if its block is outstanding
  (`FreeIsFaithfulIff`). The slab path clears its magic and stops a
  second free until the slot or its slab is reused (`SlabDoubleFreePanics`). The
  freed ring of a debug build stops one of either kind exactly as long as
  `DebugRuns.SecondFreeCaughtIff` says, and never a legal free (`LegalFreesPass`).
- The leak collector reports a pointer that another thread has freed until the
  owner drains it; its count is right if and only if nothing is pending
  (`CollectorCountsUsersIff`). One such free makes it one too many, or two if the
  allocation is large (`PushedIsReported`); where only the owner frees it is exact
  (`OneThreadLeaks`).

## Model

| member | source | states |
|---|---|---|
| Words.AlignmentValidIffPow2 | include/common.h:25-27 | the and-mask test accepts exactly the powers of two |
| Words.MaskClearsLowBits | include/common.h:6 | masking a word with the complement of 2^k - 1 subtracts its remainder by 2^k |
| Words.AlignUpWordSpec | include/common.h:6 | ALIGN_UP on 64-bit words is the least multiple not below x while the sum stays below 2^64, and exactly 0 beyond |
| BuddyTree.NodePageInverse | src/buddy.c:68-90 | page to node and back is the identity for every node, for any number of orders |
| BuddyTree.PageNodeInverse | src/buddy.c:68-90 | node to page and back is the identity for every aligned page of every row |
| BuddyTree.HalvesAndBuddy | src/buddy.c:92-100 | the buddy's start differs by flipping the block-size bit; the lower of two buddies starts where the parent does |
| BuddyTree.ChildStarts | src/buddy.c:94-96 | the left child starts where its parent does and the right one half a block later |
| BuddyTree.LeafUnique | src/buddy.c:110-120 | no page lies in two live leaves, whatever stale marks lie below them |
| BuddyTree.LeavesTile | src/buddy.c:110-120 | every page of the pool lies in a live leaf |
| BuddyAddresses.IndexAddressInverse | src/buddy.c:68-90 | ptr_to_node_index and node_index_to_ptr are inverse on every row and meet the address of the block |
| BuddyLayout.OrderIsLeast | src/buddy.c:47-66 | size_to_order is in range exactly when size, back pointer, header and alignment slack fit the pool, and then the order is the least whose block holds them; sums past 2^64 are out of range |
| BuddyLayout.RequestFits | src/buddy.c:189-203 | in the chosen block the back pointer, the header and the aligned user range lie in this order without overlap |
| BuddyLayout.LinkFits | src/arena.c:240-246 | wherever a request is placed, a pointer fits between the user address and the end of the block, so the link of a remote free overruns nothing, however small the request |
| LinkedLists.PushList | src/buddy.c:136-143 | pushing an element that is not on a doubly linked list puts it in front and keeps every link consistent |
| LinkedLists.RemoveList | src/buddy.c:122-134 | removing any element leaves exactly the others, in order, well linked both ways |
| LinkedLists.PushFrame | src/buddy.c:136-143 | a push onto one list does not disturb another with other elements |
| LinkedLists.RemoveFrame | src/buddy.c:122-134 | a removal from one list does not disturb another with other elements |
| BuddySpec.CreateSound | src/buddy.c:16-45 | a new pool satisfies the invariant with nothing outstanding, although all nodes but the root carry stale FULL marks |
| BuddySpec.AllocSound | src/buddy.c:145-187 | allocation keeps the invariant and makes exactly one node, of the target order and not outstanding before, live FULL; failure changes nothing |
| BuddySpec.FreeSound | src/buddy.c:206-261 | freeing any outstanding node keeps the invariant, maximal coalescing included, and takes exactly that node out |
| BuddyTheorems.RunSound | src/buddy.c:145-261 | over every run from a new pool the live FULL nodes are exactly what was handed out and not freed, the lists hold exactly the live FREE nodes of their order, outstanding blocks are disjoint, and with none left the pool is as created |
| BuddyTheorems.FreeListsExact | src/buddy.c:110-143 | between calls a node is on free list o exactly when it is live, FREE and of order o |
| BuddyTheorems.TraversalExact | src/debug.c:240-271 | descending through SPLIT marks from the root meets each live leaf of a mark exactly once and no stale one |
| BuddyTheorems.PagesConserved | src/buddy.c:145-261 | free pages plus outstanding pages equal the pool, and the leaves are exactly the listed and the outstanding blocks |
| BuddyTheorems.OutstandingDisjoint | src/buddy.c:145-204 | two outstanding blocks share no page |
| BuddyTheorems.AllocFailsIff | src/buddy.c:155-184 | an in-range allocation fails if and only if every naturally aligned block of its order overlaps an outstanding one |
| BuddyAnswers.PoolServesIff | src/buddy.c:47-66 | a pool answers a request if and only if some naturally aligned block that holds it, header, back pointer and alignment slack included, meets nothing that is handed out |
| BuddyAnswers.AllocTakesLeast | src/buddy.c:155-187 | the block taken is the start of a free block of the least sufficient order, no mark outside it changes, and a free block of the very order asked for is not split |
| BuddyAnswers.FreeKeepsRoom | src/buddy.c:206-261 | a free takes away nothing that was untouched |
| BuddyAnswers.FreedIsRoom | src/buddy.c:206-261 | what was freed can be handed out again at once |
| BuddyTheorems.NothingOutstanding | src/buddy.c:233-260 | with nothing outstanding the live tree is a single free root block |
| BuddyTheorems.FreeUndoesAlloc | src/buddy.c:145-261 | freeing the block just allocated restores every live mark, whatever was split for it |
| BuddyHeap.BuddyPool.constructor | src/buddy.c:16-45 | the arrays and the root block's links form a valid new pool |
| BuddyHeap.BuddyPoolCreate | src/buddy.c:16-45 | NULL exactly without memory or with less than tree and blocks need; otherwise a new pool whose blocks lie in the memory after the tree |
| BuddyHeap.BuddyPool.ListRemove | src/buddy.c:122-134 | the links and head after list_remove spell the list without the block |
| BuddyHeap.BuddyPool.ListPush | src/buddy.c:136-143 | the links and head after list_push spell the list with the block in front |
| BuddyHeap.BuddyPool.SplitStep | src/buddy.c:168-184 | one turn of the splitting loop is one split of the specification, with the upper half listed |
| BuddyHeap.BuddyPool.SearchOrder | src/buddy.c:155-163 | the scan finds the least non-empty order from the target on |
| BuddyHeap.BuddyPool.TakeBlock | src/buddy.c:155-187 | tree, lists and the block address after the search and the splits are those of the specification |
| BuddyHeap.BuddyPool.BuddyAlloc | src/buddy.c:145-204 | the whole new state, the header and the aligned user address; outstanding blocks keep their user addresses; NULL changes nothing |
| BuddyHeap.BuddyPool.MergeStep | src/buddy.c:233-258 | one turn of the coalescing loop is one merge, and the running block is the address of the running node |
| BuddyHeap.BuddyPool.CoalesceFrom | src/buddy.c:229-260 | the loop leaves the coalesced pool with the final block on its list |
| BuddyHeap.BuddyPool.BuddyFree | src/buddy.c:206-261 | freeing the user address of an outstanding block is the specified free; a missing magic panics and changes nothing; afterwards the header still carries the magic and no outstanding block has the address |
| BuddyHeap.BuddyPool.MagicFails | src/buddy.c:212-216 | the magic check stops a pointer if and only if the pool never handed it out: no second free is stopped |
| BuddyHeap.BuddyPool.SecondFree | src/buddy.c:206-261 | a pointer freed before leads past the check to a block that somebody else holds under another address, or whose free, even where no stale link is followed, breaks the pool or drops an outstanding block |
| BuddyDoubleFree.SecondFreeHarms | src/buddy.c:228-260 | freeing a node that is not outstanding, even where no stale link is followed, leaves a broken pool or takes some other outstanding block out |
| BuddyDoubleFree.FreeIsFaithfulIff | src/buddy.c:206-261 | a free takes off lists only what is on them, keeps the pool sound and drops no other block if and only if its block is outstanding |
| BuddyDoubleFree.StaleLinksFollowed | src/buddy.c:233-245 | two pages freed and merged, the first freed again: the loop takes a buddy off a list that it is not on |
| SlabLayout.GetCache | src/slab.c:10-17 | the scan returns the smallest class that holds the request |
| SlabLayout.CapacityFits | src/slab.c:49-65 | every class has at least one slot, and all slots fit the region after the descriptor |
| SlabLayout.SlotFacts | src/slab.c:59-83 | each slot with its header and data lies in the region, clear of the descriptor, and is 16-byte aligned |
| SlabLayout.SlotsDisjoint | src/slab.c:67-83 | different slots of a slab do not overlap, headers included |
| ArenaSlabs.CarveLinks | src/slab.c:67-83 | the carving loop leaves a free list of exactly the slots, last one first, with live headers |
| ArenaSlabs.SlabCreateSound | src/slab.c:42-85 | slab_create adds exactly one slab, of its class and with a free slot, or none; all other slabs and everything out stay as they were |
| ArenaSlabs.HeadHasRoom | src/slab.c:93-103 | the first slab of a partial list has a free slot, so slab_alloc never dereferences an empty free list |
| ArenaSlabs.SlabAllocSound | src/slab.c:87-117 | slab_alloc keeps the slab state machine and hands out exactly one slot of the smallest class that fits, or nothing |
| ArenaBlocks.BuddyRequestSound | src/arena.c:78-110 | a direct block request keeps the arena's invariant and hands out exactly one block of the size and alignment asked, or nothing |
| ArenaBlocks.AllocBlockKeeps | src/arena.c:15-110 | whichever extent serves, the new block lies where the arena knew no slot, block or slab |
| ArenaOps.ExpandOk | src/arena.c:138-171 | a mapped extent joins the arena as a free pool apart from all others |
| ArenaAnswers.BlockFailsExactly | src/arena.c:78-110 | a block request answers NULL if and only if no pool has an untouched block for it and the source grants no extent, or none large enough |
| ArenaAnswers.RoomIsUsed | src/arena.c:15-110 | while a pool has room no extent is mapped; the active extent comes first; at most the pool that serves changes |
| ArenaAnswers.FirstWithRoom | src/arena.c:86-98 | when the active extent has no room, the first in the list that has serves and becomes the active one |
| ArenaAnswers.OfferIffUsable | src/arena.c:138-171 | an offered extent is accepted if and only if it and its metadata fit the address space and meet no other extent and no mapping |
| ArenaAnswers.SlabAllocFailsIff | src/slab.c:87-100 | NULL if and only if the request exceeds 1024 bytes, or no slab of the smallest class that holds it has a free slot, no pool has room for a region and the source grants no extent; then nothing changes |
| ArenaAnswers.FreeSlotIsUsed | src/slab.c:93-103 | a free slot of the class is used before anything else: no slab is made and no pool touched |
| ArenaAnswers.SlabGrowsIff | src/slab.c:93-100 | an extent is mapped for a small object only when no free slot and no pool serves, and then whenever one is granted |
| ArenaAnswers.FreeHelps | src/slab.c:119-156 | a free, of a slot or a block, never makes a small request fail that could be served before |
| ArenaFrees.UnusedSlabIsWhole | src/slab.c:150-155 | a slab whose count is 0 has every slot on its free list |
| ArenaFrees.RetireSound | src/slab.c:150-155 | giving an empty slab's region back keeps the invariant and everything that is out |
| ArenaFrees.FreeLocalSound | src/slab.c:119-156 | freeing any outstanding pointer never panics, keeps the invariant and takes exactly that pointer out |
| SlabDoubleFree.SlabDoubleFreePanics | src/slab.c:127-132 | a second free of a slab pointer panics after any run of object requests, block requests and frees in between that neither hands the slot out again nor retires its slab |
| ArenaTheorems.ArenaCreateSound | src/arena.c:173-198 | a new arena satisfies the invariant with nothing out |
| ArenaTheorems.ClaimHoldsRequest | src/arena.c:78-110 | every outstanding pointer holds its size, is aligned, and has its header before it, all within one taken block |
| ArenaTheorems.SmallAlignmentHolds | src/alloc.c:50-58 | slots satisfy every valid alignment up to 16 |
| ArenaTheorems.ClaimsApart | src/slab.c:49-83 | no two outstanding allocations of an arena share a byte, headers and padding included |
| ArenaTheorems.ClaimsClearOfMetadata | src/arena.c:138-171 | no outstanding allocation overlaps a free block, a slab descriptor or region header, a free slot, or an extent's metadata and tree |
| ArenaTheorems.NothingOut | src/slab.c:146-155 | with nothing out every cache list is empty and every pool is one free root block |
| ArenaTheorems.FreeAllRecovers | src/slab.c:146-155 | freeing everything that is out, in any order, reaches that state |
| ArenaHeap.ArenaObject.constructor | src/arena.c:173-198 | the object starts as the new arena of the specification |
| ArenaHeap.ArenaObject.PushPartial | src/slab.c:19-26 | the descriptor links spell the partial list with the slab in front, all other lists untouched |
| ArenaHeap.ArenaObject.RemovePartial | src/slab.c:28-40 | the descriptor links spell the partial list without the slab, all other lists untouched |
| ArenaHeap.ArenaObject.PushFull | src/slab.c:19-26 | the same for a full list |
| ArenaHeap.ArenaObject.RemoveFull | src/slab.c:28-40 | the same for a full list |
| ArenaHeap.ArenaObject.TryExtent | src/arena.c:22-35 | one extent's answer, with the headers written, is the specified placement; a refusal changes nothing |
| ArenaHeap.ArenaObject.AllocRegion | src/arena.c:15-110 | active extent, then the others in list order, then a new one: the new state and address are the specified ones |
| ArenaHeap.ArenaObject.CarveSlots | src/slab.c:67-83 | the loop's memory and headers are those of the specified carving |
| ArenaHeap.ArenaObject.CreateSlab | src/slab.c:42-85 | the whole new state, lists included, is the specified one |
| ArenaHeap.ArenaObject.TakeFirst | src/slab.c:102-116 | taking a slot, with the move to the full list when it was the last, is the specified step |
| ArenaHeap.ArenaObject.SlabAlloc | src/slab.c:87-117 | state and result are those of the specification and the object stays valid |
| ArenaHeap.ArenaObject.PutBack | src/slab.c:132-149 | putting a slot back, with the move to the partial list when the slab was full, is the specified step |
| ArenaHeap.ArenaObject.RetireSlab | src/slab.c:150-155 | unlinking an empty slab and freeing its region is the specified step |
| ArenaHeap.ArenaObject.SlabFreeLocal | src/slab.c:119-156 | panics exactly on a header without the magic; otherwise the specified state |
| ArenaHeap.ArenaObject.FreeLocal | src/arena.c:319-346 | for every outstanding pointer, no panic and the specified state |
| ArenaHeap.ArenaObject.Drain | src/arena.c:256-276 | the walk frees exactly the pending pointers, in stack order, although each free overwrites the link just read |
| ArenaHeap.ArenaObject.RemoteFree | src/arena.c:235-254 | without contention the pointer becomes the head of the stack and nothing else moves |
| ArenaHeap.ArenaObject.ArenaAlloc | src/arena.c:278-317 | arena, result and stack after the call, periodic drain and second attempt included; calls for 0 or more than 1024 bytes, or an alignment that is no power of two or above 16, change nothing, not even the counter |
| ExtentPools.AllocIn | src/arena.c:22-35 | buddy_alloc in place on the pool object of an extent answers exactly when the arena's placement does, with its address, pool and block owners |
| ExtentPools.FreeIn | src/arena.c:200-233 | buddy_free in place of an outstanding block or slab region does not panic and leaves the pool the arena records |
| ExtentPools.FreeDirect | src/arena.c:331-346 | a direct block goes back to the pool object without a panic, and the pool is the one that the arena's free records |
| ExtentPools.FreeRegion | src/arena.c:208-233 | the region of a slab goes back to the pool object without a panic, and the pool is the one that retiring the slab records |
| ArenaCalls.ArenaAllocSound | src/arena.c:278-317 | with any pending stack, arena_alloc hands out one slab object of the size asked or nothing; drains take nothing out of anybody's hands, and the stack is empty after a 64th call or a failure |
| ArenaAnswers.ArenaAllocFailsIff | src/arena.c:278-309 | NULL if and only if after everything pending has come back no slot of the class is free, no pool has room for a region, and neither attempt is offered a usable extent; what is left then is the drained arena |
| ArenaAnswers.PendingServes | src/arena.c:303-308 | while a slot of the class waits on the stack no request for it fails, however full the arena and whatever the source offers |
| ArenaAnswers.ArenaDrainsIff | src/arena.c:284-306 | the stack is drained exactly on a 64th call or when the first attempt is hopeless, and stays as it was otherwise |
| ArenaAnswers.GrowsBeforeDraining | src/arena.c:290-306 | outside a 64th call a usable extent is mapped when nothing is free, and what is pending stays pending |
| ArenaAnswers.NullFromSecondAttemptIff | src/arena.c:306-311 | whatever other threads do meanwhile, a call returns NULL only from the attempt after its drain, and if and only if that attempt is hopeless |
| ArenaCalls.DrainSound | src/arena.c:256-276 | a drain changes nothing that anybody holds |
| ArenaCalls.FreeHereSound | src/arena.c:319-346 | a free on the owner's thread never panics and keeps the pending stack well linked |
| ArenaCalls.PushedSound | src/arena.c:235-254 | a push by another thread takes exactly that pointer out of users' hands and keeps the stack and all free lists |
| Remote.StepKeeps | src/arena.c:235-317 | every atomic step of the owner and of any number of pushers keeps the system invariant, for all interleavings |
| Remote.PushCasKeeps | src/arena.c:243-249 | a successful swap is sound whatever happened since the load, a drain and a new push of the same head included |
| Remote.DrainOneKeeps | src/arena.c:264-275 | freeing the cursor leaves the rest of the detached list readable and outstanding |
| Remote.WordWriteKeepsArena | src/arena.c:240-246 | writing the first word of something outstanding disturbs no free list |
| RemoteTheorems.OnePlaceOnly | src/arena.c:235-276 | every pointer is in exactly one of: user's hands, a push in flight, the pending stack, the detached list, the allocator |
| RemoteTheorems.StepMoves | src/arena.c:235-317 | each step moves exactly the pointers it names between those places, and hands out only what the allocator had |
| RemoteTheorems.StartSystemSound | src/arena.c:173-198 | a fresh arena starts the system in the invariant |
| RemoteTheorems.PushesAreDrained | src/arena.c:235-276 | over every interleaved run the pushes and the drains of a pointer balance but for one in transit: none is lost, none freed twice |
| RemoteTheorems.TransitStorageIsKept | src/arena.c:261-275 | whatever is in transit lies in a block still taken and, for a slot, in a slab that exists and counts it |
| RemoteTheorems.UsedCountsEveryPlace | src/slab.c:139-155 | a slab's count is the number of its slots held, in flight, pending or detached, so retirement cannot strand a node |
| RemoteTheorems.QuietSystemRecovered | src/arena.c:256-276 | once users hold nothing and all pushes are drained, everything has been recovered |
| RemoteTheorems.CounterWraps | src/arena.c:284-288 | the drain interval keeps its phase when the 64-bit counter wraps |
| RemoteTheorems.BoundedReclamation | src/arena.c:278-288 | a push completed before 64 accepted calls has been returned to its slab or pool by their end |
| SigmaTheorems.MappingBytesIff | src/large.c:31-36 | page rounding is exact if and only if it stays below 2^64, and asks for 0 bytes otherwise |
| SigmaTheorems.MappingBytesCanWrap | src/large.c:31-36 | a concrete request that passes the guard and rounds to 0 bytes |
| SigmaTheorems.LargePlacedIff | src/large.c:31-87 | header, alignment and user range lie in the mapping if and only if the rounding did not wrap, whatever the alignment of the mapping; the user range then starts at the first aligned address behind the header |
| SigmaTheorems.LargeAllocSound | src/large.c:28-105 | one new large allocation, or, whichever step failed, nothing changed for users |
| SigmaAnswers.RefusedIff | src/large.c:29-32 | the guard refuses exactly size 0, an alignment that is no power of two, and sums of size, header and alignment slack that do not fit 64 bits |
| SigmaAnswers.GrantedIffUsable | src/large.c:38-42 | a mapping is accepted if and only if it is not empty, fits the address space and meets no extent, no other mapping and none of the allocator's own storage |
| SigmaAnswers.LargeAllocFailsIff | src/large.c:28-69 | NULL if and only if the guard refuses, the mapping cannot be used, or one of the two objects cannot be had |
| SigmaTheorems.SigmaAllocSound | src/alloc.c:45-73 | whatever tier serves, exactly one new pointer of the size and alignment asked is in users' hands, or none |
| SigmaAnswers.SigmaAllocFailsIff | src/alloc.c:45-73 | NULL if and only if the request is malformed or its tier cannot serve it, nor, for a block, the large tier after it |
| SigmaAnswers.ServingTier | src/alloc.c:50-72 | slabs serve up to 1024 bytes and alignment 16, pools up to their size while one or a new one has room, and a mapping of its own serves everything else |
| SigmaTheorems.BlockFailsIff | src/arena.c:100-102 | with a willing source a block request fails exactly when it exceeds a whole pool with its header, and the extent is mapped all the same |
| SigmaTheorems.WholePoolRequest | src/alloc.c:60-72 | with pools of 4 MiB, a request of 4 MiB maps an extent that cannot serve it and stays, and the pointer, if any, is a large allocation |
| SigmaFrees.LargeFreeSound | src/large.c:106-147 | large_free from any thread never panics on its own allocation, lets go of both bookkeeping objects and the mapping, and of nothing else |
| SigmaFrees.SigmaFreeSound | src/free.c:42-79 | freeing any held pointer, on the owner's thread or another, never panics and takes back exactly that pointer, whichever tier it came from |
| SigmaFrees.OwnerFreesAtOnce | src/free.c:42-79 | a free by the owner returns at once the object, or both objects of a large allocation, and nothing else, and never touches the remote stack |
| SigmaFrees.OthersPush | src/free.c:42-79 | a free by any other thread returns nothing to the arena and puts the object, or node and metadata, in front of what is pending |
| SigmaFrees.FreeEachRecovers | src/free.c:42-79 | once all held pointers have come back, in any order and from any threads, a drain leaves no slab, no mapping, no bookkeeping object, and every pool one free block |
| SigmaRuns.StartSound | src/sigma_malloc.c:145-153 | a new allocator starts in the invariant with nothing held |
| SigmaRuns.FirstArenaSound | src/arena.c:173-198 | an arena is made exactly when the mapping of arena_t and the first extent are granted, and starts sound and empty; otherwise whatever was granted has gone back |
| SigmaRuns.CallSound | src/sigma_malloc.c:113-143 | no legal call panics, frees from other threads included, and what users hold afterwards is what its result tells them |
| SigmaRuns.HeldIsBelieved | src/alloc.c:45-73 | over every run the allocator's account of held pointers equals the one kept from results alone |
| SigmaRuns.LeaksAfterRun | src/debug.c:312-327 | after every run the collector meets exactly the pointers held and those pushed by other threads and not yet drained |
| SigmaRuns.PushedIsReported | src/debug.c:173-327 | a pointer another thread has just freed is still reported: one leak too many, or two for a large allocation, whose bookkeeping objects are reported instead |
| SigmaRuns.OneThreadLeaks | src/debug.c:312-327 | after any run in which only the owner frees nothing is pending, and the collector reports each pointer handed out and not given back once, and nothing else |
| SigmaHeap.UnlinkList | src/large.c:123-131 | unlinking a node takes exactly it off the debug list, with the head moved only when it had no predecessor |
| SigmaHeap.SigmaObject.LinkLarge | src/large.c:89-102 | the links spell the list with the new node in front |
| SigmaHeap.SigmaObject.AllocLarge | src/large.c:28-105 | state and result are those of the specification, failure paths and drains included |
| SigmaHeap.SigmaObject.FreeLarge | src/large.c:106-147 | never panics on a large allocation and leaves the specified state |
| SigmaHeap.SigmaObject.Allocate | src/alloc.c:45-73 | routing, fall-through to the large tier included, yields the specified state and result |
| SigmaHeap.SigmaObject.Release | src/free.c:42-79 | dispatch by tier and thread yields the specified state without a panic |
| SigmaHeap.SigmaObject.Reallocate | src/sigma_malloc.c:113-143 | allocate, then free: the specified state and result, never a panic |
| SigmaStores.UserHolds | src/alloc.c:45-73 | every held pointer of every tier has its size within what it claims, after its header |
| SigmaStores.UsersApart | src/alloc.c:45-73 | over all tiers no two held pointers share a byte of what they claim |
| Stores.PlacedOwned | src/buddy.c:145-203 | what buddy_alloc stores, marks, links of blocks free before or after, back pointer and header, is the arena's own before or after |
| Stores.CreatedOwned | src/slab.c:42-85 | so is what slab_create stores: region header, descriptor, slot headers and links |
| Stores.TakenOwned | src/slab.c:102-116 | so is what taking a slot stores: the object header and descriptors |
| Stores.PutOwned | src/slab.c:132-149 | so is what putting a slot back stores |
| Stores.RetiredOwned | src/slab.c:150-155 | so is what giving a region back stores |
| Stores.BlockFreedOwned | src/buddy.c:206-261 | so is what buddy_free stores |
| Stores.ExpandedOwned | src/arena.c:138-171 | so is what mapping an extent stores |
| ArenaItems.ItemsApart | src/slab.c:42-85 | extent metadata, free blocks, slab starts, free slots and what is out share no byte, each with its headers and links |
| ArenaItems.OwnByteInOneItem | src/arena.c:138-171 | each byte an arena keeps for itself lies in exactly one of them |
| ArenaItems.TakeSpares | src/slab.c:102-116 | taking a slot stores to its own header and to descriptors, and to no other record |
| ArenaItems.PutSpares | src/slab.c:132-149 | putting a slot back stores to its own header and link and to descriptors, and to no other record |
| ArenaItems.CarveSpares | src/slab.c:49-83 | carving stores to the new slab and its slots, and to no other record |
| ArenaItems.PlaceSpares | src/buddy.c:145-203 | buddy_alloc stores to no slab, slot or header of what was out |
| ArenaItems.BlockFreeSpares | src/buddy.c:206-261 | buddy_free stores to no slab, slot or header of anything else that is out |
| ArenaStores.BlockClear | src/arena.c:78-110 | along its path a block request stores to no byte of a pointer that is out nor outside the extents |
| ArenaStores.SlabClear | src/slab.c:87-117 | nor does slab_alloc, whether it takes a slot, places a region or maps an extent for it |
| ArenaStores.FreeClear | src/arena.c:319-346 | nor does a free, other than to what is freed |
| ArenaStores.FreeAllClear | src/arena.c:256-276 | nor does a drain, other than to what it drains |
| SigmaStores.ArenaAllocClear | src/arena.c:278-317 | arena_alloc, drains and second attempt included, stores to no byte in users' hands |
| SigmaStores.AllocStoresClear | src/alloc.c:45-73 | sigma_alloc, whatever tiers it tries, stores to no byte of a pointer that a user holds |
| SigmaStores.FreeStoresClear | src/free.c:9-80 | sigma_free from any thread stores to no byte of a pointer held by another user |
| SigmaStores.FreshBytesClear | src/large.c:28-105 | while a large allocation is made nothing is stored to the bytes it hands out |
| Realloc.HeldAcrossAlloc | src/alloc.c:45-73 | bytes of a pointer held while somebody allocates are unchanged |
| Realloc.HeldAcrossFree | src/free.c:9-80 | bytes of a pointer held while somebody frees another, on any thread, are unchanged |
| Realloc.ReallocSwaps | src/sigma_malloc.c:113-143 | success swaps old for new in users' hands and changes nothing else; failure leaves the old pointer held |
| SigmaAnswers.ReallocFailsIff | src/sigma_malloc.c:113-129 | NULL if and only if a held pointer is resized to 0 or no storage of the new size can be had |
| Realloc.ReallocPreserves | src/sigma_malloc.c:127-142 | although the inner allocation may drain, carve, split and map, the new pointer starts with the first min(old size, stored size, new size) bytes of the old one and all other users' bytes are kept |
| Realloc.FailedReallocKeeps | src/sigma_malloc.c:127-129 | a failed call leaves every held byte as it was although the inner allocation may have grown the arena |
| Realloc.ProductOverflowsIff | src/sigma_malloc.c:26-27 | the overflow test refuses exactly the products that do not fit 64 bits |
| Realloc.CallocZeroes | src/sigma_malloc.c:23-35 | a successful call returns zero bytes and keeps all other users' bytes; a large allocation of a zeroing source is rightly left as it is |
| Leaks.SlabWalkExact | src/debug.c:173-224 | the slab walk reports each held slab object once, bookkeeping objects excluded |
| Leaks.BuddyWalkExact | src/debug.c:240-288 | the buddy walk reports each held block once; slab regions and stale marks are not reported |
| Leaks.CollectorExact | src/debug.c:312-327 | the walks together meet exactly the pointers users hold and those still on the remote stack, each once |
| Leaks.CollectorCountsUsersIff | src/debug.c:312-327 | the count is the number users hold if and only if no push waits for a drain |
| Leaks.LeakSizeHolds | src/debug.c:212-217 | each reported size holds what was asked, and is exactly it for blocks and large allocations |
| LeakCollector.IsInFreelist | src/debug.c:19-26 | following the links from the head decides membership in the free list |
| LeakCollector.IsTracking | src/debug.c:196-207 | the scan of the large list recognises exactly the bookkeeping objects |
| LeakCollector.LeakTable.Push | src/debug.c:108-111 | the table keeps the first 4096 entries in order |
| LeakCollector.LeakTable.CollectSlab | src/debug.c:184-219 | the table grows by the sizes of the slab's held slots |
| LeakCollector.LeakTable.CollectSlabs | src/debug.c:173-224 | the table grows by the sizes of all held slab objects in walk order |
| LeakCollector.LeakTable.TraverseBuddyNodes | src/debug.c:240-271 | the recursion appends the sizes of the held blocks below a live node, reading only blocks that are taken |
| LeakCollector.LeakTable.CollectExtents | src/debug.c:280-288 | the table grows by the sizes of all held blocks |
| LeakCollector.LeakTable.CollectLarge | src/debug.c:290-308 | the table grows by the sizes of all large allocations |
| LeakCollector.LeakTable.CollectLeaks | src/debug.c:312-327 | the table holds the sizes of the first 4096 pointers met, and the count is how many are held or pending, up to 4096 |
| FreedRing.FreedRecords.ForgetFreed | src/debug_free.c:21-28 | exactly the entries for the pointer are emptied |
| FreedRing.FreedRecords.CheckDoubleFree | src/debug_free.c:30-53 | the scan panics exactly when the pointer is not NULL and recorded |
| FreedRing.FreedRecords.RecordFree | src/debug_free.c:55-66 | the oldest entry is overwritten and the cursor advances around the ring |
| FreedRing.NoFalseAlarm | src/debug_free.c:21-66 | over every run of possible events no live pointer is in the ring and recorded pointers are pairwise distinct |
| FreedRing.DoubleFreeCaughtIff | src/debug_free.c:30-66 | a freed pointer not handed out again is found if and only if fewer further frees than the ring has entries were recorded |
| FreedRing.HandedOutIsForgotten | src/alloc.c:8-12 | handing a pointer out again removes it from the ring |
| DebugRuns.LegalFreesPass | src/free.c:13-40 | over every run of legal calls every double-free check passes, those for bookkeeping objects included, and what the ring takes for live is what users hold and the bookkeeping objects |
| DebugRuns.StartLegal | src/debug_free.c:17-53 | from program start with an empty ring no check ever stops a legal free |
| DebugRuns.SecondFreeCaughtIff | src/free.c:13-40 | a second free after any legal calls that have not handed the pointer out again panics if and only if fewer than 8192 frees were recorded since |
| BumpSpec.FitsIff | src/arena_allocator.c:49-59 | the 64-bit padding and size tests accept exactly the requests that fit in real arithmetic, the wrap of ALIGN_UP to 0 and a block ending at 2^64 included |
| BumpSpec.NewBlockFits | src/arena_allocator.c:61-67 | a block made for a request has room for it without wrapping |
| BumpTheorems.AllocMeetsContract | src/arena_allocator.c:14-68 | a tower of arenas of any depth over a source meets the allocator contract: aligned, in range, apart from everything handed out since the last reset, and it owns exactly what it newly obtained |
| BumpTheorems.RefusesIff | src/arena_allocator.c:14-68 | NULL exactly for size 0, an alignment that is no power of two, size and slack beyond 64 bits, or when the newest block has no room and one of the greater of block size and size with slack does not fit 64 bits with its header or is refused below |
| BumpTheorems.OverSourceRefusesIff | src/arena_allocator.c:14-68 | straight over a source the last case is that its address is NULL, not aligned to 16, past 2^64 with the block, or meets something live |
| BumpTheorems.RefusalChangesNothing | src/arena_allocator.c:40-64 | a refusal at whatever depth leaves every arena of the tower and the source as they were |
| BumpTheorems.ServedFrom | src/arena_allocator.c:48-68 | a request is served at the first aligned address of the newest block while that has room, with no other change, and otherwise at that of a new block in front of the others, of exactly that capacity |
| BumpTheorems.HeadersClear | src/arena_allocator.c:6-12 | no block header lies in what was handed out |
| BumpTheorems.ResetReturnsAll | src/arena_allocator.c:154-163 | reset gives back every block as obtained and leaves the arena owning nothing |
| BumpTheorems.OwnershipConserved | src/arena_allocator.c:14-163 | over every run on a source, what the source counts as live beyond the arena's blocks never changes |
| BumpTheorems.OwnershipBalance | src/arena_allocator.c:14-163 | over every run on a parent of any depth the blocks obtained are those still listed and those given back, as multisets with size and alignment: none twice, none lost |
| BumpArena.BumpArena.constructor | src/arena_allocator.c:138-145 | the arena starts valid, owning nothing |
| BumpArena.BumpArena.NewBlock | src/arena_allocator.c:14-38 | the block obtained heads the linked list and the ledger of what is owed to the parent |
| BumpArena.BumpArena.Alloc | src/arena_allocator.c:40-68 | state and address are those of the specification, and the ledger grows by what the parent newly counts as live |
| BumpArena.BumpArena.Realloc | src/arena_allocator.c:91-103 | the arena's state and the address are those of an allocation of the new size, NULL for size 0; the new range starts with the first min(old, new) bytes of the old one; nothing else in memory changes |
| BumpArena.BumpArena.Reset | src/arena_allocator.c:154-163 | the loop returns every block exactly once and empties the ledger, reading each link before its block is gone |
| ZeroFill.Memset | src/libc_wrappers.c:3-8 | the byte loop fills exactly the range |
| ZeroFill.Memcpy | src/libc_wrappers.c:10-17 | for all ranges the loop writes exactly the destination: a copy of the source unless the destination starts inside it, and then the bytes before it repeat |
| ZeroFill.ZeroSmall | src/utils/bzero.c:32-55 | two overlapping stores clear exactly the n bytes |
| ZeroFill.ZeroSse2 | src/utils/bzero.c:79-131 | equals the byte loop for every length |
| ZeroFill.ZeroAvx2 | src/utils/bzero.c:137-207 | equals the byte loop for every length |
| ZeroFill.HeadAndTail | src/utils/bzero.c:95-131 | a head and a tail that may overlap clear exactly the range |
| ZeroFill.StoreWords | src/utils/bzero.c:210-246 | the word stores start aligned, stay aligned and zero exactly the words |
| ZeroFill.TailThenGroups | src/utils/bzero.c:116-130 | the last group first and then groups that may run into it clear exactly the range |
| ZeroFill.ZeroWords | src/utils/bzero.c:210-246 | equals the byte loop for every address and length, with word stores only at aligned addresses |
| ZeroFill.FillZero | src/utils/bzero.c:248-258 | whichever implementation is selected, exactly the n bytes become 0 and no other byte changes |

## Left out

- Memory sources and system calls: a source is the sequence of its answers; the contents of a mapping are those the source gave it, and what happens to them once it is given back is not represented.
- Weak memory: the remote-free protocol is modelled as sequentially consistent interleaving of atomic steps; memory orders, mutexes and thread exit are not.
- Statistics counters, leak report text, source lines, and panic output; `panic` is an outcome of its own.
- File, function and line fields of headers, which the collector reads at the slot start while slab_alloc derives them from the user address; the bytes they occupy are among those stored to.
- The dispatch on processor features; both zeroing implementations are proved.
- Values of the allocator's own bytes: headers, links, descriptors and marks are records keyed by address; Stores and its followers say which bytes they occupy and are stored to, users' bytes are memory.
- Sharing of storage between the list links, the back pointer and the old header of one block: each is a map of its own, a back pointer is dropped when its block becomes a list node, and links of blocks that are on no list are not followed.
- ArenaHeap.ArenaObject.TryExtent: works on a pool value; ExtentPools.AllocIn shows that the pool object gives the same answer and state.
- ArenaHeap.ArenaObject.RetireSlab: works on a pool value; ExtentPools.FreeRegion shows that the pool object reaches the same state.
- ArenaHeap.ArenaObject.FreeLocal: frees direct blocks on a pool value; ExtentPools.FreeDirect shows that the pool object reaches the same state.
- ArenaHeap.ArenaObject.SlabFreeLocal: requires that a pointer which passes the check is out; slots carved and never handed out carry the magic too, and freeing one is not represented.
- ArenaItems.PlaceSpares: speaks of blocks for users; descriptors are taken as stored to by every step on slabs, whichever of them it links.
- Remote: one arena and its owner against any number of other threads; large allocations, whose bookkeeping objects travel as slab objects, take no other part in it.
- Sigma, SigmaHeap: one arena; frees come from any thread, allocations from its owner, and each push is one step, the interleaving of pushes being treated in Remote. `sigma_free` across allocators and its panic are not represented.
- Realloc.ReallocPreserves: the caller's own arena serves the request and takes the old pointer back.
- Remote.StepKeeps: a slab allocation attempt and a local free are single steps, since only the owner's thread touches that state.
- ArenaHeap.ArenaObject.RemoteFree: the retry loop of the swap is in Remote, where it competes with others.
- ArenaHeap.ArenaObject.constructor: the mapping of arena_t and the NULL answers are in SigmaRuns.FirstArena, on values.
- ArenaTheorems.ArenaCreateSound: the mapping of arena_t and the NULL answers are in SigmaRuns.FirstArenaSound.
- BuddyHeap.BuddyPool.BuddyFree: requires that a pointer with the magic is outstanding; BuddyHeap.BuddyPool.MagicFails and BuddyHeap.BuddyPool.SecondFree treat the pointers that pass the check and are not. Memory never written as a header counts as lacking the magic.
- SigmaHeap.SigmaObject.Reallocate: the copy of the contents is accounted for in Realloc.ReallocPreserves on memory as a function of addresses.
- SigmaFrees.SigmaFreeSound: the double-free check and the record of a debug build are in DebugRuns, on the events of the same calls.
- BumpArena.BumpArena: block headers are records apart from the bytes handed out; `BumpTheorems.HeadersClear` states that they do not overlap.
- Release builds, where the debug list of large allocations and the freed ring do not exist: the model always keeps the list.
- Destroying arenas at thread exit, calloc of the bump arena, and the vtable wrappers, which only forward.
- The parser example, the demo program, the regression and the stress programs.
