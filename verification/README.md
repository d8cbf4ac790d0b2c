# Models of the network boot core and of the client registry

This project models parts of the boot firmware in `src/ipxe/src/core` and the
client registry of the server in `server`, and proves what they promise. Each
module is a model of one source file or of one layer of it.

- **Heap** (`Memory`, `FreeList`, `FreeLinks`, `Pool`, `HeapRuns`, `Heap`,
  `HeapTraces`, `IoBuf`, `IoConcat`): the first-fit, address-ordered, coalescing
  allocator, as functions on a value (`Pool`) and as a class that works on memory
  (`Heap`), whose methods are proved to do what the functions do. The free list
  exists only as sizes and links inside the memory that it manages
  (`FreeLinks`), so the proofs say which bytes may change, and that nothing an
  owner stores can disturb the list. I/O buffers are built on top, with their
  descriptors in the same memory.
- **Interfaces** (`Interface`, `PassThrough`, `Cascade`, `CascadeReach`,
  `CascadeArea`, `FarEnds`, `Networks`, `Plumbing`): plugging, unplugging and mutual closing
  of object interfaces, with reference counts, and how far a close goes.
  The cascades are functions on the state that have no result where the program
  would search for ever, and the class leaves exactly the states they give.
- **Console** (`Raster`, `Palette`, `Terminal`, `Scrollback`, `ConsoleText`,
  `AnsiEsc`, `ScreenLayout`, `Fbcon`): the stored text, against an endless roll of
  paper, the escape sequences, the colours, the pixel geometry, and the drawing.
- **Device tree** (`DeviceTree`, `Fdt`, `FdtTokens`, `FdtPath`): lookup by scanning tokens in
  memory against lookup in the tree.
- **Codecs and parsers** (`Base64`, `LineBuf`, `GdbStub`, `CommandLine`, `Shell`).
- **Event machines** (`Pinger`, `RunQueue`, `SanDevice`): every interleaving of
  the events that other parts of the system may cause.
- **Calendar** (`Calendar`) and **registry** (`Names`, `Registry`).
- `Words` holds machine arithmetic that several modules use.

Seven statements of the source hold only in part. The models follow the code,
give an example, and prove exactly when the statement holds: that memory is
leaked only at the ends of a region (`HeapRuns.OffsetsExactly`), that packets
which are too long are noticed (`GdbStub.OneTooMany`, `GdbStub.TooLong`), that
the character area lies on the screen (`ScreenLayout.TooLargeARequest`,
`ScreenLayout.InsideExactly`), that shutdowns do not loop (`Cascade.RingHangs`,
`Cascade.ShutdownsEndExactly`), that a shutdown leaves neither end plugged into
the other (`Cascade.OtherEndStays`, `Cascade.OtherEndExactly`), that closes reach
all far ends that close themselves (`Networks.UntidyHandler`,
`FarEnds.TidyExactly`), and that encoding ends (`Base64.EncodeEndsExactly`).

For chains of closes the condition is one that can be read off the handlers, and
is shown to be enough: those that disable an interface name what its own close
names (`CascadeReach.ShutDownReaches`; `Networks.HandlersDisagree` is an example
where they do not).

## Model

| member | source | states |
|---|---|---|
| Pool.ActualMeaning | src/ipxe/src/core/malloc.c:296-311 | rounding a request up to the minimum block size gives zero exactly for size zero and for sizes that wrap around, and otherwise the least multiple that holds the request |
| Pool.PreSizeLeast | src/ipxe/src/core/malloc.c:318-323 | the gap left before an allocation is below the alignment and leads to the least address of the block that is aligned as requested |
| Pool.Conservation | src/ipxe/src/core/malloc.c:205-235 | in every state that satisfies the pool invariant, freemem and usedmem add up to the memory ever populated, and neither can have wrapped |
| Pool.GiveKeeps | src/ipxe/src/core/malloc.c:404-499 | freeing a live block keeps the invariant: free, live and leaked blocks partition the regions, free blocks are ordered with strict gaps between them, and the two counters are the sums of those blocks |
| Pool.TakeKeeps | src/ipxe/src/core/malloc.c:316-371 | taking a block out of a free block, with the remainders kept or leaked, keeps the same invariant |
| Pool.AllocateKeeps | src/ipxe/src/core/malloc.c:279-394 | an allocation keeps it too, whatever cached data is discarded on the way |
| Pool.PopulateKeeps | src/ipxe/src/core/malloc.c:648-660 | adding a region keeps it |
| Pool.LowestAddress | src/ipxe/src/core/malloc.c:316-371 | one pass over the free list finds the lowest suitably aligned room in the whole pool, and fails exactly if there is none |
| Pool.AllocateResult | src/ipxe/src/core/malloc.c:279-388 | with nothing left to discard, allocation returns NULL exactly if the size is zero or wraps, or no aligned room is free; otherwise the lowest such room becomes live; a failure changes nothing |
| Pool.FailureIsExhaustion | src/ipxe/src/core/malloc.c:374-388 | an allocation that fails has first discarded everything that was cached, and even then there is no room |
| Pool.DiscardsOnlyForRoom | src/ipxe/src/core/malloc.c:316-388 | an allocation discards cached items only while no aligned room is free: it discards the least number after which there is room, in order, and takes the lowest room there is then; the other live blocks and both counters change by exactly that; it returns NULL exactly if the size is zero or wraps or there is no room even with everything discarded |
| Pool.AllocatesExactly | src/ipxe/src/core/malloc.c:279-388 | it succeeds if and only if the rounded size is not zero and discarding everything would make room |
| Pool.GiveUndoesTake | src/ipxe/src/core/malloc.c:450-495 | freeing the block just allocated restores the live blocks and both counters in any case, and restores the free list, and with it the whole pool, if and only if the allocation leaked nothing |
| FreeList.CanonicalUnique | src/ipxe/src/core/malloc.c:205-235 | two free lists in order, with gaps, that hold the same bytes are the same list |
| FreeList.SumCountsBytes | src/ipxe/src/core/malloc.c:361-365 | the sizes of disjoint blocks add up to the number of addresses they cover |
| FreeList.InsertCanonical | src/ipxe/src/core/malloc.c:450-491 | inserting a block with coalescing keeps the list ordered with strict gaps |
| FreeList.InsertCovers | src/ipxe/src/core/malloc.c:450-491 | the list then covers exactly the old bytes and those of the block |
| FreeList.CarveCovers | src/ipxe/src/core/malloc.c:324-360 | carving an allocation out of a free block leaves free exactly the other bytes, less what is leaked |
| HeapRuns.RunKeeps | src/ipxe/src/core/malloc.c:205-235 | the invariant holds after any run of populating, allocating, freeing and caching |
| HeapRuns.LeaksOnlyAtRegionEnds | src/ipxe/src/core/malloc.c:335-360 | in a run whose offsets are multiples of the minimum block size, fragments are leaked only at the very start or end of a region |
| HeapRuns.GapFromBoundary | src/ipxe/src/core/malloc.c:318-323 | from a block on a boundary there is a gap exactly if the offset is not such a multiple |
| HeapRuns.UnalignedOffsetLeaksInside | src/ipxe/src/core/malloc.c:335-360 | for every other offset, a small allocation from a free block that starts on a boundary inside a region leaks a fragment that touches neither end of the region |
| HeapRuns.OffsetsExactly | src/ipxe/src/core/malloc.c:335-360 | wherever six minimum blocks fit, every run that uses an offset leaks only at region ends, as the comment says, if and only if the offset is a multiple of the minimum block size; for any other offset a run from the empty heap leaks inside a region |
| Heap.Heap.constructor | src/ipxe/src/core/malloc.c:90-100 | a new heap is valid, with an empty list in memory |
| Heap.Heap.Walk | src/ipxe/src/core/malloc.c:450-474 | following the links in memory stops at the place of the block, merged with the block just before it if there is one; the memory still encodes the list; only free memory, the freed block and the list head are written, and not the padding of the freed block |
| Heap.Heap.Link | src/ipxe/src/core/malloc.c:476-491 | linking the block in, and merging it with the one after it, keeps the list ordered and encoded in memory, covers exactly the right bytes, and writes only sizes and links of the list |
| Heap.Heap.FreeMemblock | src/ipxe/src/core/malloc.c:404-499 | the list in memory becomes the list with the block inserted, the counters move by its rounded size, and no byte outside the free list and its head is written |
| Heap.Heap.Release | src/ipxe/src/core/malloc.c:404-499 | a client's free gives its block back to the pool and changes no byte of any other live block, nor the padding bytes at its start that may hold a reference count; NULL does nothing |
| Heap.Heap.Mpopulate | src/ipxe/src/core/malloc.c:648-660 | the rounded region is added, with usedmem restored although it may wrap in between, and no live byte changes |
| Heap.Heap.DiscardCache | src/ipxe/src/core/malloc.c:242-252 | reports zero exactly if nothing was cached, and otherwise gives back one block |
| Heap.Heap.FindFit | src/ipxe/src/core/malloc.c:316-323 | following the links in memory finds the first block of the list that fits with the requested alignment |
| Heap.Heap.Split | src/ipxe/src/core/malloc.c:324-360 | the list in memory becomes the list with the allocation carved out, its remainders kept or leaked, and only free memory and the list head are written |
| Heap.Heap.TakeBlock | src/ipxe/src/core/malloc.c:324-365 | splits the block in place, moves both counters, and writes only to free memory |
| Heap.Heap.AllocMemblock | src/ipxe/src/core/malloc.c:279-394 | returns what the pool's allocation returns, leaves the pool in that state, raises the highest use so far to the use afterwards, and changes no byte that a client holds |
| Heap.SignedExact | src/ipxe/src/core/malloc.c:453-457 | signed pointer differences are exact for blocks within half of the address space |
| Heap.AllocateFresh | src/ipxe/src/core/malloc.c:279-394 | the memory returned was part of no live block |
| Memory.LoadStored | src/ipxe/src/core/malloc.c:540-557 | a size field stored in memory is read back as it was |
| Heap.Heap.Write | src/ipxe/src/core/malloc.c:205-235 | a store by the owner of a block leaves the free list in memory as it was |
| Heap.ChecksPass | src/ipxe/src/core/malloc.c:205-235 | every assertion of the integrity check holds, with all sizes and links read from memory |
| Heap.Heap.Realloc | src/ipxe/src/core/malloc.c:521-572 | NULL exactly if the new size is not zero and wraps or cannot be allocated, and then the old block and all other held bytes are intact; otherwise the new block has the old contents up to the smaller size, the old block is free, and no other held byte has changed |
| HeapTraces.Perform | src/ipxe/src/core/malloc.c:279-660 | each call of the allocator, and each store by an owner, leads from one state of pool and memory to the next as the runs below assume |
| HeapTraces.PerformAll | src/ipxe/src/core/malloc.c:205-235 | through a whole run of calls and stores, the sizes and links read from memory are the free list in every state, and the states form such a run |
| HeapTraces.NextKeeps | src/ipxe/src/core/malloc.c:279-660 | every such call keeps the pool invariant |
| HeapTraces.Isolation | src/ipxe/src/core/malloc.c:279-660 | in every run of allocations, frees, resizes, cache discards, added regions and stores by other owners, a block remains its owner's and keeps every byte until the owner frees, resizes, caches or stores into it |
| Heap.BlockSurvives | src/ipxe/src/core/malloc.c:532-557 | allocating the new block leaves the old block and its size field as they were |
| FreeLinks.EncodesAdd | src/ipxe/src/include/ipxe/list.h:75-107 | writing four links inserts a block at its place in the list that memory encodes |
| FreeLinks.EncodesDel | src/ipxe/src/include/ipxe/list.h:123-128 | writing two links takes a block off that list, and leaves its size in place |
| FreeLinks.EncodesUnique | src/ipxe/src/include/ipxe/list.h:75-128 | memory encodes at most one list |
| FreeLinks.EncodesFrame | src/ipxe/src/include/ipxe/list.h:75-128 | bytes other than the sizes and links of the list do not matter to it |
| Heap.Heap.LinkBlock | src/ipxe/src/include/ipxe/list.h:75-107 | a block is inserted before or after a given entry, and only sizes and links of the list are written |
| Heap.Heap.UnlinkBlock | src/ipxe/src/include/ipxe/list.h:123-128 | an entry is removed, and only sizes and links of the list are written |
| IoBuf.RoundedAlignFacts | src/ipxe/src/core/iobuf.c:59-77 | the alignment used is the least power of two that is at least the requested one and holds an aligned descriptor |
| IoBuf.InlineFits | src/ipxe/src/core/iobuf.c:83-95 | an inline descriptor is aligned, lies behind the data, and keeps the whole allocation within one alignment unit |
| IoBuf.AllocatedExactly | src/ipxe/src/core/iobuf.c:79-117 | a buffer can be allocated if and only if, with all cached data discarded, there is aligned room in one piece for data and descriptor where they are to be together, and otherwise room for the data and then, in what is left, for the descriptor |
| IoBuf.DetachedNotAtEnd | src/ipxe/src/core/iobuf.c:145-170 | a separately allocated descriptor is never at the end address of its data, so it cannot be mistaken for an inline one |
| IoBuf.AllocIobRaw | src/ipxe/src/core/iobuf.c:48-117 | succeeds exactly if there is room for the buffer with its descriptor, or for the one and then the other; the buffer then owns exactly one or two new heap blocks, is aligned as requested, has at least the requested length, is inline exactly if it fits, and its descriptor in memory holds its four addresses; on failure the same blocks are owned as before, and in no case does a held byte change |
| IoBuf.FreeIob | src/ipxe/src/core/iobuf.c:145-170 | from the addresses in the descriptor, releases exactly the blocks and sizes that the buffer was made of, and nothing for NULL |
| IoBuf.AllocFillFree | src/ipxe/src/core/iobuf.c:48-170 | allocating a buffer, filling it with any data, reading that back and freeing the buffer leaves the same blocks owned as before and every byte held before unchanged |
| IoBuf.AllocateAligned | src/ipxe/src/core/iobuf.c:90-95 | the address returned by the allocator meets the requested alignment and offset |
| IoConcat.Concatenate | src/ipxe/src/core/iobuf.c:198-231 | a single buffer is returned as it is; otherwise it fails exactly if there is no room, with the list and all held bytes as before, or the new buffer holds the data of all buffers in order in new blocks, every block of the old buffers has been given back, the list is empty, and every other owned block keeps its contents |
| IoConcat.TotalLength | src/ipxe/src/core/iobuf.c:214-215 | the lengths of buffers in use add up without wrapping |
| IoConcat.Append | src/ipxe/src/core/iobuf.c:225-226 | the data of one buffer is added at the end of another, and no byte outside the blocks of the other changes |
| IoConcat.IntactStays | src/ipxe/src/core/iobuf.c:198-231 | a buffer depends on the contents of its own blocks only |
| IoBuf.Malloc | src/ipxe/src/core/malloc.c:583-592 | size zero gives the special address; NULL is returned exactly for a size that wraps or cannot be allocated, with nothing more owned than before; otherwise a block with its size field in front |
| IoBuf.Free | src/ipxe/src/core/malloc.c:604-613 | returns exactly the block behind the pointer, and nothing for NULL and for the special address |
| Interface.GetKeeps | src/ipxe/src/core/interface.c:134-137 | taking a reference keeps every count equal to the owners, incoming plugs and calls in progress, less one |
| Interface.PutKeeps | src/ipxe/src/core/interface.c:144-146 | dropping one keeps that, frees the object exactly when the last reference goes, and never frees it twice |
| Interface.PlugKeeps | src/ipxe/src/core/interface.c:83-90 | exchanging the references of a plug keeps every count right, and changes no other plug |
| Interface.PlugWrites | src/ipxe/src/core/interface.c:87-89 | when the destination is written, after the old one has been released, the interface still belongs to a live object, if and only if the plug being replaced was not the only reference to it, the new destination included |
| Interface.DestAlive | src/ipxe/src/core/interface.c:182-199 | the destination of an interface has not been freed |
| Interface.QuietCounts | src/ipxe/src/core/interface.c:244-352 | with everything unplugged and no call in progress, each count is the owners less one, and the freed objects are those without owners |
| PassThrough.FoundExactly | src/ipxe/src/core/interface.c:207-225 | the search finds the first interface of the pass-through chain that does not pass operations on, or never ends; it never ends if and only if the chain enters a ring, of any length |
| PassThrough.RingNeverEnds | src/ipxe/src/core/interface.c:207-225 | every interface that a search looks at in a ring passes the operation on |
| PassThrough.RankExactly | src/ipxe/src/core/interface.c:207-225 | interfaces can be ranked so that passing on always descends if and only if every search ends |
| Cascade.ClosedKeeps | src/ipxe/src/core/interface.c:244-261 | a close cascade only unplugs, keeps all references accounted for, unplugs the interface itself if its operation does, and ends in a safe network |
| Cascade.ScriptedKeeps | src/ipxe/src/core/interface.c:244-261 | a close handler that shuts down or restarts interfaces of its own object leaves each of them unplugged, with all references accounted for; how far that reaches is CascadeReach.ScriptedReaches |
| Cascade.ActedKeeps | src/ipxe/src/core/interface.c:244-352 | a shut-down or restarted interface ends up unplugged, a restarted or reinitialised one with its original descriptor and a nullified one without, and neither of these two changes a plug |
| Cascade.ScriptedInOrder | src/ipxe/src/core/interface.c:244-261 | the actions of a handler are performed in order, the second part of a handler in the state that the first has left |
| Cascade.ShutDownKeeps | src/ipxe/src/core/interface.c:273-291 | the interface ends up unplugged, its former destination too if its close operation unplugs it, and all references are accounted for |
| Cascade.RestartedKeeps | src/ipxe/src/core/interface.c:337-352 | the interface ends up unplugged with its original descriptor |
| Cascade.ShutAllKeeps | src/ipxe/src/core/interface.c:299-312 | all of the interfaces end up unplugged, with all references accounted for; how far that reaches is CascadeReach.IntfsShutdownReaches |
| Cascade.ShutdownsEndExactly | src/ipxe/src/core/interface.c:273-352 | every shutdown ends, in a network and in all that unplugging and changes of descriptors make of it, if and only if no interface leads to a ring other than through itself |
| Cascade.SafeMeans | src/ipxe/src/core/interface.c:207-225 | that condition in terms of rings of pass-through interfaces |
| Cascade.RankedSafe | src/ipxe/src/core/interface.c:207-225 | an order on the pass-through interfaces is enough for it |
| Cascade.RingHangs | src/ipxe/src/core/interface.c:207-225 | an example of a shutdown that never ends |
| Cascade.OtherEndExactly | src/ipxe/src/core/interface.c:273-291 | of two interfaces plugged into each other, where the object of the second has no other plug, shutting down the first leaves the second unplugged if and only if the close operation of the second unplugs it; otherwise the shutdown ends and changes no other plug |
| Cascade.OtherEndStays | src/ipxe/src/core/interface.c:273-291 | an example of a shutdown that leaves the other end plugged in |
| Cascade.PairClosed | src/ipxe/src/core/interface.c:273-352 | of two interfaces plugged into each other, the second with the default close operation, shutting down the first unplugs both, nullifies the first, leaves the second ready for use, and changes nothing else |
| CascadeReach.ShutDownReaches | src/ipxe/src/core/interface.c:244-291 | shutting down an interface unplugs everything that a chain of any length leads to, where each step goes from an interface to one that the close of its destination shuts down or restarts, as does every handler that disables that destination |
| CascadeReach.ShutDownPassesOn | src/ipxe/src/core/interface.c:207-291 | the same for the interface that handles the close at the end of the pass-through interfaces |
| CascadeReach.IntfsShutdownReaches | src/ipxe/src/core/interface.c:299-312 | shutting down several interfaces unplugs everything that such chains from any of them lead to, as long as no step needs an answer of one of them |
| CascadeReach.ScriptedReaches | src/ipxe/src/core/interface.c:244-291 | after a close handler has run, the other end of every plug that was taken out, by the handler or by anything that followed, is unplugged too if its close operation unplugs it, provided that no handler nullifies such an interface without shutting it down or restarting it |
| CascadeReach.ActedReaches | src/ipxe/src/core/interface.c:273-352 | the same after one shutdown or restart by a handler |
| CascadeReach.PerformedReaches | src/ipxe/src/core/interface.c:273-352 | the same after a shutdown, a restart, or a shutdown of several interfaces by the rest of the program |
| FarEnds.TidyExactly | src/ipxe/src/core/interface.c:244-352 | in every world that has two interfaces no handler acts on and whose handlers do not reinitialise interfaces themselves, all calls close all such far ends in all networks if and only if no handler nullifies an interface that closes itself without shutting it down or restarting it |
| FarEnds.BrokenFails | src/ipxe/src/core/interface.c:299-312 | where a handler does, there is a network in which a shutdown of two interfaces leaves a far end plugged in |
| CascadeReach.ShutDownSpreads | src/ipxe/src/core/interface.c:244-291 | in any cascade, the other end of every plug taken out, and every interface nullified, has done what it owes, apart from the interface shut down itself |
| CascadeArea.ShutDownDead | src/ipxe/src/core/interface.c:273-291 | a shutdown changes no plug and no descriptor outside the area that its closes can reach, and its interface, nullified before the close, does not answer and is still nullified at the end |
| CascadeArea.IntfsShutdownConfined | src/ipxe/src/core/interface.c:299-312 | the same for several interfaces: all are nullified before the first is shut down, so none of them answers while the others close |
| Networks.NeighbourCloses | src/ipxe/src/core/interface.c:244-291 | an example where shutting down one interface reaches the far end of another plug of the neighbour's object |
| Networks.UntidyHandler | src/ipxe/src/core/interface.c:244-291 | an example of a handler that nullifies an interface and leaves it plugged in, which the shutdown of the other end then does not reach |
| Networks.HandlersDisagree | src/ipxe/src/core/interface.c:244-291 | an example of two handlers that do not name the same interfaces, where a chain of closes breaks off |
| Cascade.PerformedKeeps | src/ipxe/src/core/interface.c:83-352 | every legal call keeps all references accounted for and ends in a safe network |
| Cascade.RunKeeps | src/ipxe/src/core/interface.c:83-352 | after any run of plugging, unplugging, shutting down, restarting, taking and dropping references, each legal when its turn comes, all references are accounted for, the owners' are those taken and not dropped, and no object was freed twice or came back |
| Cascade.RunEnds | src/ipxe/src/core/interface.c:83-352 | such a run ends if no plug makes the network unsafe |
| Cascade.RunFrees | src/ipxe/src/core/interface.c:83-352 | a run that leaves everything unplugged has freed exactly the objects without owners, each once |
| Plumbing.Plumbing.constructor | src/ipxe/src/core/interface.c:47-65 | newly initialised interfaces are all unplugged, and each object has the one reference of its creator, with a count of zero |
| Plumbing.Plumbing.IntfGet | src/ipxe/src/core/interface.c:134-137 | counts one more reference to the object of an interface |
| Plumbing.Plumbing.IntfPut | src/ipxe/src/core/interface.c:144-146 | counts one less, and frees the object at the last one |
| Plumbing.Plumbing.FindOp | src/ipxe/src/core/interface.c:182-225 | whenever the search ends, it returns what the search finds, with one reference to it and no other, and looks only at live objects on the way |
| Plumbing.Plumbing.IntfClose | src/ipxe/src/core/interface.c:244-261 | leaves exactly the state of the cascade |
| Plumbing.Plumbing.RunScript | src/ipxe/src/core/interface.c:244-261 | leaves exactly the state of the handler's actions in order |
| Plumbing.Plumbing.IntfShutdown | src/ipxe/src/core/interface.c:273-291 | leaves exactly the state of the shutdown, and does not touch the interface once its destination has been moved |
| Plumbing.Plumbing.IntfRestart | src/ipxe/src/core/interface.c:337-352 | leaves exactly the state of the restart; the object is still live when its descriptor is restored |
| Plumbing.Plumbing.IntfsShutdown | src/ipxe/src/core/interface.c:299-312 | leaves exactly the state of nullifying all interfaces first and then shutting them down in order |
| Plumbing.Plumbing.IntfPlug | src/ipxe/src/core/interface.c:83-90 | sets the one destination, takes a reference to the new one and drops that to the old one first; tells if the interface is part of a live object when it is written |
| Plumbing.Plumbing.IntfPlugPlug | src/ipxe/src/core/interface.c:102-105 | plugs two interfaces into each other, both live when they are written |
| Plumbing.Plumbing.IntfUnplug | src/ipxe/src/core/interface.c:112-117 | plugs an interface into the null interface, likewise |
| Plumbing.Plumbing.PerformAll | src/ipxe/src/core/interface.c:83-352 | any legal run of calls that end leaves exactly the state of that run |
| Plumbing.Plumbing.RefDecrement | src/ipxe/src/core/refcnt.c:61-91 | the count falls by one, and the object is freed exactly if it was zero |
| Plumbing.Plumbing.TakeReference | src/ipxe/src/core/refcnt.c:42-51 | one more owner, one more in the count |
| Plumbing.Plumbing.DropReference | src/ipxe/src/core/refcnt.c:61-91 | one owner less; the object is freed exactly if the count was zero |
| AnsiEsc.Context.Process | src/ipxe/src/core/ansiesc.c:74-124 | every character changes the context and causes an event as in the value machine, and no parameter is written outside the array |
| AnsiEsc.StepKeeps | src/ipxe/src/core/ansiesc.c:74-124 | the parameter count stays within the array in every state, and a completed sequence has between one and all parameters |
| AnsiEsc.SequenceRead | src/ipxe/src/core/ansiesc.c:74-124 | a sequence of one to five decimal parameters, some possibly omitted, with any intermediate bytes before them, calls its handler at its last byte with exactly those parameters and that function; every earlier character is swallowed without a call |
| AnsiEsc.TooManyParameters | src/ipxe/src/core/ansiesc.c:94-105 | one separator too many ends the sequence without a call |
| Raster.LocateOffset | src/ipxe/src/core/fbcon.c:157-181 | each byte position of a cell is distinct from those of every other cell, and can be located again from its offset |
| Raster.OffsetInBuffer | src/ipxe/src/core/fbcon.c:157-181 | every byte of every cell lies within the frame buffer |
| Raster.PixelShows | src/ipxe/src/core/fbcon.c:186-209 | a pixel has the cell's ink where the glyph has a bit, from the most significant down and never in the ninth column, and otherwise the cell's ground, or for a transparent cell the picture or black |
| Raster.ColourBytes | src/ipxe/src/core/fbcon.c:206-207 | a colour is in memory as its four bytes, the lowest first |
| Fbcon.Fbcon.Draw | src/ipxe/src/core/fbcon.c:157-213 | drawing a cell gives each of its bytes the glyph, background or picture that it should have, and changes no other byte |
| Fbcon.Fbcon.DrawOver | src/ipxe/src/core/fbcon.c:157-213 | if the character area is a full drawing of some cells, then after drawing one cell it is a full drawing of those cells with that one changed |
| Fbcon.Fbcon.Redraw | src/ipxe/src/core/fbcon.c:220-235 | afterwards the character area is a full drawing of the stored text, and nothing else has changed |
| Fbcon.Fbcon.Clear | src/ipxe/src/core/fbcon.c:111-129 | the rows from the given one on become blanks in the current colours |
| Fbcon.Fbcon.Scroll | src/ipxe/src/core/fbcon.c:242-259 | the text moves up by a row, the last row becomes blank, and the area shows it |
| Fbcon.Fbcon.DrawCursor | src/ipxe/src/core/fbcon.c:267-280 | only the cursor cell is drawn again, with the colours swapped if the cursor is shown |
| Fbcon.Fbcon.HandleCup | src/ipxe/src/core/fbcon.c:290-304 | the cursor moves, positions outside the screen become the first, and the area shows the text and the cursor |
| Fbcon.Fbcon.HandleEd | src/ipxe/src/core/fbcon.c:313-331 | the screen becomes blank with the cursor in the first cell |
| Fbcon.Fbcon.HandleCursor | src/ipxe/src/core/fbcon.c:400-423 | the cursor is shown or hidden from then on |
| Fbcon.Fbcon.HandleSgr | src/ipxe/src/core/fbcon.c:340-391 | the colours become those of the rendition, aspect by aspect, and what is shown does not change |
| Palette.CustomColour | src/ipxe/src/core/fbcon.c:374-390 | the five-parameter sequences set the foreground or the background to the mapped colour of the three components, and nothing else |
| Palette.RenderedConcat | src/ipxe/src/core/fbcon.c:340-391 | aspects that are not custom colours act one after another |
| Palette.ResetForgets | src/ipxe/src/core/fbcon.c:351-354 | after a reset, the colours before do not matter |
| Palette.EightColours | src/ipxe/src/core/fbcon.c:360-370 | aspects 30 to 37 set the ink and 40 to 47 the ground to the mixture of red, green and blue in that order of bits, and nothing else |
| Palette.NamedAspects | src/ipxe/src/core/fbcon.c:351-374 | 31 is red ink, 44 blue ground, 1 and 22 change only the boldness, and 39, 49 and 0 go back to plain white ink, to no ground, and to both |
| Palette.BoldRed | src/ipxe/src/core/fbcon.c:356-362 | bold and red together print in the mapped colour 0xff5555 |
| Palette.RawBoth | src/ipxe/src/core/fbcon.c:50-62 | mapping colours to pixels preserves combining them bit by bit |
| Palette.RawParts | src/ipxe/src/core/fbcon.c:50-62 | each of the three components goes to its own place in the pixel |
| Fbcon.Fbcon.Print | src/ipxe/src/core/fbcon.c:469-475 | the character is stored under the cursor and shown there in place of the cursor |
| Fbcon.Fbcon.PutNormal | src/ipxe/src/core/fbcon.c:441-492 | a character that is not part of a sequence prints, moves or scrolls as in the text model, which Scrollback.ScreenOfRoll describes for all strings, and the area shows the result |
| Fbcon.Fbcon.Putchar | src/ipxe/src/core/fbcon.c:441-492 | after any character at all the cursor is inside the screen, the character area is exactly a full drawing of the text and the cursor cell, and no byte outside the area has changed |
| Fbcon.Fbcon.PutString | src/ipxe/src/core/fbcon.c:441-492 | the same after any sequence of characters |
| Fbcon.Fbcon.constructor | src/ipxe/src/core/fbcon.c:664-682 | a new console is valid, with blank text in the default colours over a black screen |
| Fbcon.Fbcon.DrawPicture | src/ipxe/src/core/fbcon.c:684-694 | every byte of the screen is that of the picture, or black without one, and if the space glyph is blank the area shows the text |
| Fbcon.Init | src/ipxe/src/core/fbcon.c:583-706 | for every configuration, fails exactly if the layout is refused or memory is lacking for the text or for a picture; the screen is unchanged if the layout is refused or text memory is lacking, black if only picture memory is lacking, and shows the picture otherwise; a success with a layout on the screen gives a console all of whose bytes are bytes of the screen, and with any other layout the code succeeds too |
| Terminal.TypedKeeps | src/ipxe/src/core/fbcon.c:441-492 | every character keeps the cursor inside the screen and the text at its size |
| Terminal.SequenceTyped | src/ipxe/src/core/fbcon.c:441-447 | typing a whole sequence has exactly the effect of its handler, and prints nothing |
| Terminal.CursorAddressed | src/ipxe/src/core/fbcon.c:290-304 | typing a cursor position sequence within the screen moves the cursor there and changes nothing else |
| Terminal.TypedText | src/ipxe/src/core/fbcon.c:469-483 | printable text that ends before the last cell fills consecutive cells across line ends and leaves all others alone |
| Terminal.LineFeedScrolls | src/ipxe/src/core/fbcon.c:242-259 | a line feed on the last row moves every row up by one and blanks the last |
| Scrollback.CarriageReturns | src/ipxe/src/core/fbcon.c:451-454 | a carriage return goes back to the start of the row and prints nothing |
| Scrollback.LineFeedGoesDown | src/ipxe/src/core/fbcon.c:455-459 | a line feed goes to the start of the next row, scrolling exactly if there is none on the screen, and prints nothing |
| Scrollback.BackspaceGoesBack | src/ipxe/src/core/fbcon.c:460-468 | a backspace goes back by one place in reading order, across the start of a row but not of the screen, and erases nothing |
| Scrollback.CharacterPrints | src/ipxe/src/core/fbcon.c:469-488 | any other character is stored in the pen's ink, made bold, and ground, and goes on by one place in reading order, scrolling exactly after the last place of the screen |
| Scrollback.ScreenOfRoll | src/ipxe/src/core/fbcon.c:441-492 | whatever string of characters, carriage returns, line feeds and backspaces is typed, the screen is the last rows of an endless roll of paper on which each of them only counts places in reading order |
| Scrollback.TextInOnePiece | src/ipxe/src/core/fbcon.c:469-488 | on that roll, text of any length without control characters is in one piece, over row ends and scrolling alike, and nothing else changes |
| Scrollback.LineThenNext | src/ipxe/src/core/fbcon.c:451-488 | a line shorter than a row, followed by carriage return and line feed, leaves the next line to start at the next row |
| ConsoleText.PlainTyped | src/ipxe/src/core/fbcon.c:441-492 | outside escape sequences, the console does with any string what the text model does, and draws the cursor where it ends |
| ConsoleText.PlainOnRoll | src/ipxe/src/core/fbcon.c:441-492 | so its screen is the end of such a roll |
| ConsoleText.CursorGoes | src/ipxe/src/core/fbcon.c:290-304 | the cursor position sequence goes to its row and column counted from one, and to the first for each that is not on the screen or omitted, and changes nothing else |
| ConsoleText.PageErased | src/ipxe/src/core/fbcon.c:313-331 | the erase sequence leaves blanks in the current colours everywhere and the cursor in the first place, and changes nothing else |
| ConsoleText.PenChanged | src/ipxe/src/core/fbcon.c:340-391 | the rendition sequence changes the pen as its aspects say, and nothing else |
| ConsoleText.CursorShown | src/ipxe/src/core/fbcon.c:400-423 | the private sequences h and l show and hide the cursor, and change nothing else |
| ConsoleText.OthersIgnored | src/ipxe/src/core/fbcon.c:426-433 | any other sequence is swallowed without effect |
| ConsoleText.Drawn | src/ipxe/src/core/fbcon.c:267-280 | drawing the cursor changes nothing else; a cursor that is shown has the pen's ink as ground and its ground, or black, as ink |
| ScreenLayout.FitMeaning | src/ipxe/src/core/fbcon.c:614-658 | if the size asked for fits the screen and the margins add up to no more than two to the power of 31, or there are no margins, as many characters as possible lie between the margins, centred to within a pixel, a zero margin reaching the edge; it is refused exactly if not one fits |
| ScreenLayout.InsideExactly | src/ipxe/src/core/fbcon.c:614-658 | for all screens below two to the power of 31 pixels and all 32-bit requests and margins, a layout that is not refused lies on the screen if and only if neither margin it ends up with is wider than the screen; for requests below two to the power of 31 and margins below two to the power of 30, that is if and only if the size asked for fits the screen or there are no margins |
| ScreenLayout.TooLargeARequest | src/ipxe/src/core/fbcon.c:614-658 | an example of a larger size with margins that is accepted and lies outside the screen |
| ScreenLayout.PlacedFits | src/ipxe/src/core/fbcon.c:640-658 | a layout on the screen gives a usable geometry whose bytes are all bytes of the screen |
| ScreenLayout.AreaBetweenMargins | src/ipxe/src/core/fbcon.c:640-658 | every byte of the character area belongs to a pixel between the margins |
| DeviceTree.ScanNode | src/ipxe/src/core/fdt.c:193-232 | scanning the tokens of a node with a depth counter finds the first of the node's own items that matches, wherever deeper nodes are, or reports that there is none |
| DeviceTree.SkipItems | src/ipxe/src/core/fdt.c:205-231 | inside a child nothing matches, and the depth comes back to what it was |
| DeviceTree.ChildHere | src/ipxe/src/core/fdt.c:193-232 | the position found is where that child itself is serialised |
| Fdt.StepToken | src/ipxe/src/core/fdt.c:77-183 | for each token of a serialised tree, the reader returns its name or data and moves to the next token |
| FdtTokens.TokenRead | src/ipxe/src/core/fdt.c:77-183 | a token that is in any memory in full, whatever fills up its last word, is read as what it is |
| FdtTokens.RefusedExactly | src/ipxe/src/core/fdt.c:77-183 | for all memory, the reader refuses it if and only if no token is there in full before the end, with its name in the strings block, or one that ends a node which was never begun |
| FdtTokens.SmallTree | src/ipxe/src/core/fdt.c:77-183 | the bytes of a small tree |
| Fdt.NameMatches | src/ipxe/src/core/fdt.c:219-228 | a string comparison with a serialised name succeeds exactly for that name |
| Fdt.Cursor.Traverse | src/ipxe/src/core/fdt.c:77-183 | one token of any memory, with the errors for truncated, unterminated, overlong and unexpected ones |
| Fdt.FindChild | src/ipxe/src/core/fdt.c:193-232 | for every well-formed tree, the first immediate child of the name, or ENOENT if there is none |
| Fdt.FindProperty | src/ipxe/src/core/fdt.c:312-343 | the data of the first of the node's own properties of the name, never one of a node below it, or ENOENT |
| FdtPath.Lookup | src/ipxe/src/core/fdt.c:241-275 | the node that the names of the path lead to one after another, or ENOENT; the path is left as it was |
| FdtPath.LookupName | src/ipxe/src/core/fdt.c:258-266 | one name is looked up with a terminator over the delimiter after it, which is then restored |
| FdtPath.NamesOfPath | src/ipxe/src/core/fdt.c:250-271 | the names of a path that was joined from names are those names, and a trailing delimiter asks for one more, the empty name |
| FdtPath.ResolveExactly | src/ipxe/src/core/fdt.c:241-275 | the names lead to a node if and only if there is a trail of children, each the first with its name among the children of the one before, and then to the end of that trail |
| Base64.Encode | src/ipxe/src/core/base64.c:51-81 | for all data for which the loop ends, the output is the encoding of section 4 of RFC 4648, cut to the buffer and terminated, and its full length is returned; the 32-bit bit number may wrap in the padding without effect |
| Base64.EncodeEndsExactly | src/ipxe/src/core/base64.c:54-61 | the loop over the data ends if and only if there are fewer than two to the power of 29 bytes, as the bit number is then able to reach the length |
| Base64.RfcAt | src/ipxe/src/core/base64.c:51-81 | that encoding, character by character, in terms of six-bit pieces of the data |
| Base64.Alphabet | src/ipxe/src/core/base64.c:39-40 | the alphabet is A to Z, a to z, 0 to 9, + and / |
| Base64.TestVectors | src/ipxe/src/core/base64.c:51-81 | three of the test vectors of section 10 of RFC 4648 |
| Base64.Extract | src/ipxe/src/core/base64.c:60-69 | shifting and joining two neighbouring bytes gives the six bits at a bit position |
| Base64.AddBits | src/ipxe/src/core/base64.c:140-147 | six more bits are added to the decoded data across two bytes |
| Base64.Decode | src/ipxe/src/core/base64.c:91-157 | for every string, white space apart, it is accepted exactly if it is alphabet characters and then at most two pads, of a length divisible by four; the length returned is that of the data modulo two to the power of 29, and the bytes are those of the data as long as the bit number does not wrap |
| Base64.WellFormedMeans | src/ipxe/src/core/base64.c:106-149 | what is accepted, white space apart: whole groups of four characters of the alphabet, of which the last may end in one or two equals signs |
| Base64.StripConcat | src/ipxe/src/core/base64.c:108-110 | white space is left out wherever it is |
| Base64.RoundTrip | src/ipxe/src/core/base64.c:51-157 | the encoding is accepted and stands for the same bytes and length, for all data |
| Base64.EncodeDecode | src/ipxe/src/core/base64.c:51-157 | running the encoder and then the decoder on its output gives back the same bytes and length |
| Base64.ShapePrefix | src/ipxe/src/core/base64.c:106-136 | a string that has gone wrong can not become right again |
| Base64.RfcTail | src/ipxe/src/include/ipxe/base64.h:21-23 | the encoding is four characters for each three bytes, rounded up |
| LineBuf.LineBuffer.Buffer | src/ipxe/src/core/linebuf.c:91-143 | consumes up to the first line feed; refuses a NUL there, or a lack of memory, with nothing changed; otherwise the lines so far and the rest are those of the data received |
| LineBuf.LineBuffer.BufferedLine | src/ipxe/src/core/linebuf.c:45-58 | returns the line that the last call completed, if it did |
| LineBuf.LineBuffer.Empty | src/ipxe/src/core/linebuf.c:65-71 | nothing is left |
| LineBuf.LineBuffer.Receive | src/ipxe/src/core/linebuf.c:91-143 | the lines collected from a piece of the stream, and what is left over, are those of the piece after what was left before |
| LineBuf.ReceiveAll | src/ipxe/src/core/linebuf.c:45-143 | however a NUL-free stream is cut into pieces, the lines collected are the lines of the stream |
| LineBuf.LinesConcat | src/ipxe/src/core/linebuf.c:91-143 | the lines of a stream do not depend on where it is divided, even between a CR and its LF |
| LineBuf.LinesOfStream | src/ipxe/src/core/linebuf.c:121-138 | lines sent with LF or CR LF are received as they were, with at most one CR removed |
| GdbStub.ToHexBuf | src/ipxe/src/core/gdbstub.c:111-135 | writing a two- or four-byte word in one access gives the same digits as the byte loop |
| GdbStub.FromHexBuf | src/ipxe/src/core/gdbstub.c:85-109 | reading one gives the same bytes as the byte loop |
| GdbStub.UnhexHex | src/ipxe/src/core/gdbstub.c:85-135 | decoding the digits of any bytes gives back the bytes |
| GdbStub.HexUnhexExactly | src/ipxe/src/core/gdbstub.c:85-135 | encoding what digits stand for gives back the digits if and only if they are lower-case hexadecimal and even in number |
| GdbStub.Stub.TxPacket | src/ipxe/src/core/gdbstub.c:145-153 | sends the frame of the payload, within the buffer, and keeps the payload |
| GdbStub.Stub.StateCksum2 | src/ipxe/src/core/gdbstub.c:337-352 | acknowledges and delivers, or refuses, by the checksum |
| GdbStub.Stub.Parse | src/ipxe/src/core/gdbstub.c:312-366 | every character changes the parser and sends and delivers as in the value machine, whose whole exchanges GdbStub.Conversation describes, and the buffer is never overrun |
| GdbStub.ReceivePacket | src/ipxe/src/core/gdbstub.c:312-352 | for every packet, the exact output and state: it is refused if its checksum is not that of the part that fits in the buffer, otherwise acknowledged, and, unless empty, delivered once and its reply sent, after which an acknowledgement is awaited exactly if there was a reply |
| GdbStub.SentIsReceived | src/ipxe/src/core/gdbstub.c:145-153 | every payload that fits and is free of the two framing characters is received as it was sent, with exactly that outcome |
| GdbStub.TooLong | src/ipxe/src/core/gdbstub.c:319-330 | a payload that is too long is accepted, cut short, with exactly that outcome, if and only if the bytes dropped add up to zero modulo 256; otherwise it is refused, as the comment expects |
| GdbStub.OneTooMany | src/ipxe/src/core/gdbstub.c:319-330 | one null byte too many goes unnoticed |
| GdbStub.Resent | src/ipxe/src/core/gdbstub.c:354-362 | until it is acknowledged, every character makes the same frame be sent again |
| GdbStub.Ignored | src/ipxe/src/core/gdbstub.c:312-317 | between packets everything up to the next dollar sign is ignored |
| GdbStub.Exchanged | src/ipxe/src/core/gdbstub.c:312-362 | a command, and after its reply any bytes and then an acknowledgement: exactly one acknowledgement, one delivery, and the reply once and once more for each byte that is no acknowledgement; then the next packet is awaited |
| GdbStub.Conversation | src/ipxe/src/core/gdbstub.c:312-366 | in a conversation of any number of such exchanges every command is delivered once, in order, and every reply sent until it is acknowledged, with no other output |
| GdbStub.OkFrame | src/ipxe/src/core/gdbstub.c:145-153 | the frame of the reply OK |
| GdbStub.DigitValues | src/ipxe/src/core/gdbstub.c:71-78 | the values of the hexadecimal digits of both cases |
| CommandLine.Count | src/ipxe/src/core/exec.c:121-144 | the number of maximal runs of characters other than white space |
| CommandLine.Split | src/ipxe/src/core/exec.c:121-144 | as many words are recorded as were counted, each is such a run, and each is terminated in place |
| CommandLine.TokensOfSpaced | src/ipxe/src/core/exec.c:121-144 | words written with spaces between them are read back as they were |
| Shell.Terminator | src/ipxe/src/core/exec.c:183-210 | the first operator, or the end at a comment or at the last word |
| Shell.Interpreter.Stopped | src/ipxe/src/core/exec.c:227-238 | reports and consumes the stop state |
| Shell.Interpreter.Execute | src/ipxe/src/core/exec.c:248-265 | runs one command after expanding its words, or fails for lack of memory |
| Shell.Interpreter.Process | src/ipxe/src/core/exec.c:306-340 | running the commands from left to right is the evaluation of the line as operators of equal precedence that group to the left, where a skipped command leaves the status as it is; the position never passes the end of the words |
| Shell.HaltedStays | src/ipxe/src/core/exec.c:329-336 | once processing has ended early the rest of the line has no effect |
| Shell.OperatorsMean | src/ipxe/src/core/exec.c:152-210 | a command after && is run if and only if the line before ended with status zero, after || if and only if it did not, and after ; always, unless processing has ended |
| Shell.CommandRuns | src/ipxe/src/core/exec.c:248-265 | a command that can be expanded is run once and gives the status; processing ends exactly if a stop state is set, which is then consumed unless it asks for more |
| Shell.TwoCommands | src/ipxe/src/core/exec.c:287-347 | for two commands that ask for no stop, which of them run, in which order, and the status, for each operator |
| Shell.CommentEnds | src/ipxe/src/core/exec.c:183-192 | a word that begins with a number sign ends the line |
| Shell.NothingRuns | src/ipxe/src/core/exec.c:248-265 | an empty command succeeds, and one that cannot be expanded ends the line with an error |
| CommandLine.System | src/ipxe/src/core/exec.c:287-347 | a command line means what its words mean, or fails for lack of memory with nothing done |
| Pinger.Verify | src/ipxe/src/core/pinger.c:115-126 | succeeds exactly for the generated payload |
| Pinger.Pinger.constructor | src/ipxe/src/core/pinger.c:326-336 | the initial counters |
| Pinger.Pinger.Expiry | src/ipxe/src/core/pinger.c:166-213 | an expiry acts as in the value machine |
| Pinger.Pinger.Receive | src/ipxe/src/core/pinger.c:223-279 | a packet acts as in the value machine |
| Pinger.Pinger.Close | src/ipxe/src/core/pinger.c:134-142 | the timer stops and the interfaces close |
| Pinger.RunKeeps | src/ipxe/src/core/pinger.c:166-279 | in every interleaving of events, the sequence number is the number of pings modulo 65536, and for a count the pings and the remaining expiries add up to it |
| Pinger.SentInOrder | src/ipxe/src/core/pinger.c:166-213 | the packets sent are numbered 1, 2 and so on in order without repetition, at most as many as the count |
| Pinger.TimedOutOnce | src/ipxe/src/core/pinger.c:173-175 | no ping is reported as timed out twice |
| Pinger.TimeoutMeans | src/ipxe/src/core/pinger.c:173-175 | a timeout is reported, by an expiry, if and only if no packet with that number has arrived since the ping became due |
| Pinger.ClosedByTimer | src/ipxe/src/core/pinger.c:177-181 | the timer closes the pinger only after as many pings as the count, and then with success if and only if some reply was good |
| Pinger.PacketMeans | src/ipxe/src/core/pinger.c:223-279 | every packet is reported with its number, length and status: wrong length, wrong data, wrong number or success; it closes the pinger, with that status, if and only if there is a count and it is damaged or is a good reply to the last ping of that count |
| Pinger.ExpiryMeans | src/ipxe/src/core/pinger.c:166-213 | an expiry first reports an unanswered ping; then, after the last ping of a count, it closes the pinger, with success exactly if some reply was good; otherwise the next ping is due, the timer runs again, and a packet of the counting bytes with the next number is sent if there is memory |
| Pinger.TimerRuns | src/ipxe/src/core/pinger.c:149-193 | while the pinger is open the timer runs from the first opening of the window on |
| RunQueue.Scheduler.ProcessAdd | src/ipxe/src/core/process.c:59-69 | adds a process at the end, with a reference, unless it is there |
| RunQueue.Scheduler.ProcessDel | src/ipxe/src/core/process.c:79-90 | removes it and its reference, if it is there |
| RunQueue.Scheduler.StepOnce | src/ipxe/src/core/process.c:98-121 | runs the first process, put back at the end or removed first, with a reference held meanwhile |
| RunQueue.SteppedKeeps | src/ipxe/src/core/process.c:59-121 | whatever the steps add, remove or nest, no process is queued twice, and the references are those of others and one for each queued process |
| RunQueue.SteppedNearer | src/ipxe/src/core/process.c:98-121 | each call brings a waiting process one place nearer, or it has run or been removed |
| RunQueue.EveryTurn | src/ipxe/src/core/process.c:98-121 | a process with k others before it runs within k + 1 calls of step(), or is removed |
| RunQueue.SteppedAccounts | src/ipxe/src/core/process.c:59-121 | whatever the steps do, at any depth, a process is in the queue if and only if the last thing that concerned it was a request to add it, or a run of it after which it is to be put back, or nothing and it was there before |
| RunQueue.InTurn | src/ipxe/src/core/process.c:98-121 | calls of step() run the processes in the order of the queue, each once, and put those that recur back at its end in that order |
| SanDevice.FragmentsTile | src/ipxe/src/core/sanboot.c:587-625 | the fragments cover the shifted block range in order without a gap or overlap, each within the limit |
| SanDevice.FragmentsPlace | src/ipxe/src/core/sanboot.c:618-621 | each fragment is at the place in the buffer that matches its blocks |
| SanDevice.Command | src/ipxe/src/core/sanboot.c:443-557 | it succeeds if and only if some attempt completes before more retries than the limit are used up, where failing to reopen a device of several paths uses up none; otherwise it fails with the status of the attempt that used up one too many; success means the blocks from its starting block were transferred from or to its place in memory, and nothing outside its part of the destination ever changes |
| SanDevice.OneOutcome | src/ipxe/src/core/sanboot.c:514-551 | the attempts determine at most one outcome of a command |
| SanDevice.Transfer | src/ipxe/src/core/sanboot.c:587-625 | the fragments issued are a prefix of that list; all but the last have been carried out; it succeeds if and only if each fragment in turn recovers within its retries, and then the whole range has been transferred |
| SanDevice.Assembled | src/ipxe/src/core/sanboot.c:587-625 | when every fragment has been carried out at its own block and place in memory, so has the whole request |
| SanDevice.ReadWrite | src/ipxe/src/core/sanboot.c:587-673 | it succeeds exactly if every fragment does; then a read leaves in the buffer, and a write on the disk, exactly the bytes of the range; nothing else changes, even on failure |
| Calendar.IsLeapYear | src/ipxe/src/core/time.c:60-71 | true exactly for the leap years of the Gregorian calendar |
| Calendar.LeapYearsCounted | src/ipxe/src/core/time.c:79-87 | the number of leap years after 1900 up to the given year, also for the year before 1900 |
| Calendar.Tm.Mktime | src/ipxe/src/core/time.c:117-145 | sets the day of the year and the day of the week, and returns the seconds for the date and time |
| Calendar.NextDay | src/ipxe/src/core/time.c:117-145 | the day after any date from 1900 on is numbered one more |
| Calendar.DaysCounted | src/ipxe/src/core/time.c:117-145 | each day is numbered by its distance from 1 January 1900, less 25567 |
| Calendar.EveryDate | src/ipxe/src/core/time.c:117-145 | every valid date is reached by counting days from 1 January 1900, and its number determines it |
| Calendar.Epoch | src/ipxe/src/core/time.c:128-130 | 1 January 1970 is day zero |
| Calendar.Weekday | src/ipxe/src/core/time.c:96-105 | the day of the week is the day number plus four, modulo seven |
| Calendar.Posix | src/ipxe/src/core/time.c:128-137 | from 1970 on, the seconds are those of the formula of section 4.15 of POSIX:2008 |
| Names.Normalize | server/state_ops.go:166-182 | the hexadecimal digits in lower case if there are exactly twelve, and otherwise nothing |
| Names.NormalTwice | server/state_ops.go:166-182 | normalising twice changes nothing |
| Names.HexOne | server/state_ops.go:166-182 | digits are kept, letters from a to f made small, and every other character left out |
| Names.NormalPairs | server/state_ops.go:166-182 | an address of six bytes is normalised byte by byte, whatever separates them |
| Names.FirstIds | server/state_ops.go:39-39 | an identifier is the word client, a dash, and the number in at least four digits |
| Names.IdSeqOfClientId | server/state_ops.go:185-195 | the number of an identifier is read back for every number it was issued for |
| Registry.Registry.Register | server/state_ops.go:15-51 | succeeds if and only if the address is valid, the clients can be saved, and the address is known or a token can be made; a known address keeps its client's identifier, token and first time and records the time and a name if one is given; a new one gets a client under the next number, never given out before, with the given name, the token and the time; every other client is unchanged, also on failure; an identifier is never given out for two addresses, over any restarts and failed saves; the indexes remain exact inverses |
| Registry.Registry.Heartbeat | server/state_ops.go:55-68 | the token is unknown exactly if no client has it; otherwise only the time of that client changes, and it succeeds exactly if the clients can be saved; the indexes remain exact inverses |
| Registry.Registry.constructor | server/state.go:53-62 | an empty registry |
| Registry.Registry.Persist | server/state.go:102-108 | on success the file holds the clients, on failure what it held before |
| Registry.Registry.Restart | server/state.go:53-83 | the clients are those last saved, with indexes that are exact inverses; if everything had been saved, they are the same indexes as before; numbering goes on after the highest number saved |
| Registry.Rebuild | server/state.go:85-99 | visiting the clients in any order yields exact inverses and the highest number among the clients, or zero |
| Registry.ByMacUnique | server/state.go:85-99 | there is only one index of addresses that is an exact inverse |
| Registry.ByTokenUnique | server/state.go:85-99 | there is only one index of tokens that is an exact inverse |

## Left out

- Heap.Heap: the pool lies in a window of half the address space, in which signed pointer differences are exact, and the list head outside it; masks with a power of two are written as remainders; words in memory are little-endian.
- Heap.Heap.DiscardCache: discarders give back one block at a time, out of a list of live blocks that the program has declared to be cached.
- IoBuf.AllocIobRaw: splitting buffers and checking headroom are not modelled.
- IoConcat.Concatenate: the list of buffers is a sequence of addresses, where the code links the descriptors.
- Plumbing.Plumbing.IntfClose: close handlers are the default one or lists of actions on interfaces of their own object; handlers that open new connections are not modelled.
- Plumbing.Plumbing.IntfPut: freeing an object is recorded, and runs no code of the object.
- Palette.CustomColour: shift amounts are below 32; the conversion of a background picture to raw pixels is not modelled.
- Fbcon.Init: colours are little-endian in the frame buffer; what a console whose layout lies outside the screen draws is not modelled.
- ScreenLayout.FitMeaning: margins that add up to more than two to the power of 31, and may wrap, are left to ScreenLayout.InsideExactly.
- AnsiEsc.Context.Process: parameters wrap as 32-bit integers, where C leaves overflow open.
- Fdt.FindChild: for well-formed trees only, as the reader checks lengths against the whole blob and not against the structure block; aliases, string properties, MAC addresses and the header are not modelled.
- Fdt.FindProperty: likewise.
- FdtPath.Lookup: likewise; the path is an array of its own, not part of the blob.
- Base64.Decode: what the buffer holds once the bit number has wrapped, after more than 715827882 characters, is not stated; the search of the alphabet is bounded by its 64 entries, as the array has no terminator.
- Base64.Encode: a length in bits does not wrap, as it is wider than the bit number.
- GdbStub.Stub.Parse: what a command does is any reply, or none; registers, memory and breakpoints are not modelled.
- Shell.Interpreter.Execute: how words expand and what a command does are any functions of the commands run before.
- Pinger.Pinger.Expiry: reports are recorded whether or not there is a callback; a packet is not received while another event is handled; the count plus one does not wrap.
- RunQueue.Scheduler.StepOnce: destruction of a process at its last reference is not modelled.
- SanDevice.Command: the outcome of each attempt at reopening, initiating and completing is given; reopening itself, and the timers, are not modelled.
- SanDevice.ReadWrite: the largest fragment is at least one block, and shifted block numbers do not wrap.
- Calendar.Tm.Mktime: years are far enough from overflow.
- Registry.Registry: saving and loading are the identity on clients; times are integers; tokens are fresh.
- Lock and session state, listing and the HTTP handlers of the server are left out: they would only add easy members.
- Bitmaps, square roots, random numbers, base 16 and string functions of the boot core are left out for the same reason, as are hardware access, configuration and the launcher.
