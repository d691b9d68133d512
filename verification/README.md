# Verification of the nynn graph store and message daemon

A Dafny model of five components and the theorems that connect them.

**Subgraph storage** (`BlockFormat`, `FreeList`, `OverflowTable`, `BlockStore`, `SubgraphStorage`). Blocks are
sequences of 32-bit words, and the union of the source is kept: the same words are an index block of the free
list or the header and content of a live block. `BlockMemory` has the volume, the overflow pages and the
direct-mapped table of mapped pages, and is proved to behave like one flat store. On top of it `Storage` updates
the free chain in place; `Chain` says which stack of block numbers a chain stores, and `require` and `release`
are proved to be pop and push.

**Vertex lists** (`BlockLists`, `ListSoundness`, `StrayBlocks`, `SubgraphSet`, `SubgraphReads`, `SubgraphModel`,
`SubgraphTheorems`, `PopDefect`). The list methods write head, tail, size and link words of stored blocks.
`SubgraphModel` is the abstract machine (a free stack, one sequence per vertex, sizes, contents), and each method
is proved to carry out one of its steps on the words, so the theorems over runs of the machine hold of the
methods. `Sound` is the invariant that ties the two.

**Message daemon** (`Framing`, `LinkReader`, `Delivery`, `ShmAccounting`). The reader is a class with the cached
fragment and the routing map; its parsing is proved equal to an independent definition of the frames of a byte
stream. A link is a state machine over queueing, taking, sending and receiving any amounts, and the segment
counter is a state machine over the threads' calls.

**LRU block cache** (`LruModel`, `CacheLinks`, `GraphCache`, `CachedRun`). The class keeps the intrusive chains in
one entry array; each bucket is proved to follow a sequence of items, most recent first, and the trace theorems are
about those sequences. The hash function is any function into the buckets.

**Placement and replication** (`LoadAccounting`, `GraphTable`, `Producer`, `Graph`, `Agents`). Loads, distribution
and partition are maps updated by the table's methods, each specified by how far it makes the counters drift from
what they count; write handlers apply one operation to every replica; the read-through path of `Graph::read` runs
over `readn` and the agent's one cache for the subgraphs of all hosts.

Block size, page size, volume, table size, window and counts are symbolic. `Geometry.Valid` states what the
configuration provides: blocks of at least 8 words, a volume that is a multiple of the page size, and block
numbers below the invalid one. Where the source takes the number of a block without checking it, so do the
contracts: they say what happens for a block of another vertex, a free block and a number outside the store. Except
where its contract says otherwise, each operation keeps its component's invariant (`Sound`, `Valid`), so the
invariants hold after any sequence of calls.

## Where the code differs from its evident intent

- `setMinVtxno` (nynn_mm/inc/nynn_mm_subgraph_storage.h:83) computes the end of the vertex interval in 32 bits. For
  the last interval it wraps to 0, the loop does not run, and `format` returns with all vertices zero. `Format`
  states the condition, `FormatLastInterval` the input.
- `pop` (nynn_mm/inc/nynn_mm_subgraph_set.h:422-423) clears the tail twice and the head never. It does what is
  meant exactly on lists that do not have one block; `PopDefect` proves what follows on those that do. `remove` is
  not affected, because it takes its shift branch there. Theorems over runs use the repaired `pop`;
  `Producer.Serve` also covers the written one on runs where the two agree, and `Producer.Write` says what
  it does to replicas where they do not.
- `readn` (nynn_mm/inc/nynn_mm_subgraph_set.h:205-211) never advances its count, and a negative count reserves a
  huge size. `ReadnRightIff` says when the result is right, `Graph.ReadThroughAsWritten` what the agent sees.
- Insertions at either end resize the vertex before they allocate, and `requireUnallocated` moves the bound before
  its releases can throw. `ExhaustionHarmlessIff` says when a throw leaves no trace, and
  `Producer.Write` that the replicas agree afterwards exactly then.
- `releaseRaw` (nynn_mm/inc/nynn_mm_subgraph_storage.h:428-435) keeps a block pointer across a second `getBlock`.
  `ReleaseAsWritten` says exactly when it then writes to unmapped memory, `FaultReached` gives a run that does, and
  `RunNeverFaults` proves that none does while the table has a slot for every overflow page. The rest of the model
  addresses blocks by number.
- `release` takes a number that is free already. The words it leaves store no free list at all (`PushedTwice`).
- `insertPrev`, `insertNext` and `remove` take any block number and do not check that it belongs to the vertex.
  Their contracts say what happens to blocks of other vertices, `MisremovalSizes` what it does to the sizes, and
  `StrayBlocks` proves that with a free block they crash or leave words that store no subgraph.
- `wresponder` attaches a segment before it finds that the host is no link (nynn/src/nynn_daemon.cpp:582-598), so
  that segment is lost. And the writer puts off the release of a token until it has popped the next one
  (nynn/src/nynn_daemon.cpp:382-386), so the last token of all keeps its segment for as long as no other is sent.
  `RecoversIff` says exactly in which states a segment can ever be attached again, `StarvesIff` after which runs, and
  `OneMessageStarves` is the run with a single message and no loss.
- The load counters move whether or not the placement changes: `create` of a stored key, `recycle` of a host that
  does not store the key, `restore` of one that does and `setAllSgkeys` of known or repeated keys make them drift, and
  `recycle` of the serving host (nynn_mm/inc/nynn_mm_graph_table.h:204-207) decrements the access load itself and
  again in `refresh`. Each operation states the drift it causes, `RunExactIff` what a run makes of it, and
  `ProperRunExact` that without such calls the loads stay exact.
- A handler that throws at the first replica leaves that one in the exhausted state and the others untouched.

## Model

| member | source | states |
|---|---|---|
| SubgraphTheorems.RunOwnership | nynn_mm/inc/nynn_mm_subgraph_set.h:219-427 | After any run of the seven list operations on any vertices, every number below `supBlkno` occurs exactly once in the free stack and all vertex lists together, and stack height plus list lengths equals `supBlkno` |
| SubgraphTheorems.StepRefinesList | nynn_mm/inc/nynn_mm_subgraph_set.h:219-427 | push, unshift, insertPrev, insertNext, shift, pop and remove are append, prepend, insert before or after the named block, drop first, drop last and delete of the named block on the vertex sequence |
| SubgraphTheorems.StepFrame | nynn_mm/inc/nynn_mm_subgraph_set.h:219-427 | An operation on one vertex leaves the lists, sizes and block contents of all others as they were, and never lowers the block bound |
| SubgraphTheorems.RunSizes | nynn_mm/inc/nynn_mm_subgraph_set.h:219-427 | After any run each vertex size is the sum of the content sizes of the blocks in its list, modulo 2^32 |
| SubgraphTheorems.RunSizeFields | nynn_mm/inc/nynn_mm_subgraph_set.h:219-427 | On the words: after any run each vertex size is the sum of the 16-bit size fields in word 7 of the blocks in its list, modulo 2^32 |
| SubgraphTheorems.InsertAdds | nynn_mm/inc/nynn_mm_subgraph_set.h:373-380 | A block whose word 7 is n + 65536 * hi adds exactly n to the size of the vertex it joins, wherever it joins |
| SubgraphTheorems.DeleteTakesOff | nynn_mm/inc/nynn_mm_subgraph_set.h:285-316 | And takes exactly n off when it is deleted |
| SubgraphTheorems.MisremovalSizes | nynn_mm/inc/nynn_mm_subgraph_set.h:305-315 | A block removed from one list but charged to another vertex leaves the vertex sizes exact if and only if its content is empty |
| SubgraphTheorems.DeleteUndoesInsert | nynn_mm/inc/nynn_mm_subgraph_set.h:219-427 | Deleting a block just inserted restores the whole subgraph (lists, sizes, contents, free stack) exactly when no page was added for it; otherwise only that page remains |
| SubgraphTheorems.InsertUndoesDelete | nynn_mm/inc/nynn_mm_subgraph_set.h:219-427 | Putting the removed content back at its place reuses the same block number and restores the whole subgraph |
| SubgraphTheorems.ExhaustionHarmlessIff | nynn_mm/inc/nynn_mm_subgraph_set.h:219-401 | For an insertion that throws for want of block numbers, the subgraph left behind is the one before it if and only if the bound could not move any more and the vertex was not resized before `require` (an inner insertion, or content of size zero); `Producer.Perform` says that the stored words then are those of that subgraph |
| SubgraphTheorems.SequentialAllocation | nynn_mm/inc/nynn_mm_subgraph_storage.h:310-423 | From a fresh format, a run of n insertions is given the numbers 0 to n-1 in order, through the volume and every later page |
| SubgraphTheorems.FreshWellFormed | nynn_mm/inc/nynn_mm_subgraph_storage.h:305-313 | A freshly formatted subgraph satisfies the ownership and size invariants and starts the sequential numbering at 0 |
| SubgraphModel.StepKeeps | nynn_mm/inc/nynn_mm_subgraph_set.h:219-427 | Every operation that can proceed keeps the ownership invariant |
| SubgraphModel.InsertKeeps | nynn_mm/inc/nynn_mm_subgraph_set.h:219-401 | Moving the top of the free stack into a list keeps ownership, and the number moved was owned by no list |
| SubgraphModel.DeleteKeeps | nynn_mm/inc/nynn_mm_subgraph_set.h:285-427 | Moving a block of a list onto the free stack keeps ownership |
| Ownership.PartitionExact | nynn_mm/inc/nynn_mm_subgraph_storage.h:390-444 | The ownership invariant means that each number is counted exactly once over stack and lists, and that the lengths add up |
| FreeList.ChainUnique | nynn_mm/inc/nynn_mm_types.h:158-169 | The words of an index chain store at most one stack: the abstraction of the free list is exact |
| FreeList.ChainFrame | nynn_mm/inc/nynn_mm_subgraph_storage.h:390-444 | The stack does not depend on any block outside it |
| FreeList.HeadCount | nynn_mm/inc/nynn_mm_types.h:158-169 | The number of free blocks alone says which entry of the stack is the head of the chain, how many entries it holds and whether it is full; word 0 of the head is that number, word 1 the next head and the words from 2 on the entries |
| FreeList.PushNewHead | nynn_mm/inc/nynn_mm_subgraph_storage.h:425-437 | A block released onto an empty or full head becomes a one-index head, which stores the old stack with the block on top |
| FreeList.PushIntoHead | nynn_mm/inc/nynn_mm_subgraph_storage.h:438-444 | A number appended to a head with room is the new top of the stack, although the write lands in a block that is itself on the stack |
| FreeList.PopHead | nynn_mm/inc/nynn_mm_subgraph_storage.h:390-404 | A head at its bottom is the top of the stack, and its only index names the head that stores the rest |
| FreeList.PopIndexWord | nynn_mm/inc/nynn_mm_subgraph_storage.h:405-407 | Otherwise the last index word is the top of the stack and the shortened head stores the rest |
| FreeList.Stays | nynn_mm/inc/nynn_mm_types.h:158-169 | Stray writes into two blocks do not lose both: any stack that the words store afterwards from the same head has one of them, if the old stack had the second |
| OverflowTable.HistoryTransparent | nynn_mm/inc/nynn_mm_subgraph_storage.h:377-388 | After any access history, for any table size, each entry maps the page it names in the slot of that page, and an access yields a mapping of the very page asked for |
| OverflowTable.PointerSurvives | nynn_mm/inc/nynn_mm_subgraph_storage.h:137-147 | A page pointer taken before another page is looked up is still mapped if and only if the pages are equal or fall into different slots |
| OverflowTable.MappingIs | nynn_mm/inc/nynn_mm_subgraph_storage.h:121-128 | In machine arithmetic: the page of a block is its number less the remainder by the page size, and its slot is the page index behind the volume modulo the number of slots |
| OverflowTable.NoneDisplaced | nynn_mm/inc/nynn_mm_subgraph_storage.h:107-148 | While every overflow page has a slot of its own, no look-up unmaps a page |
| OverflowTable.DisplacedIff | nynn_mm/inc/nynn_mm_subgraph_storage.h:107-148 | Below a bound, some overflow page can unmap another if and only if there are more overflow pages than slots |
| OverflowTable.HomeInjective | nynn_mm/inc/nynn_mm_subgraph_storage.h:217-234 | Different block numbers lie in different pages or at different offsets |
| OverflowTable.PageBlocks | nynn_mm/inc/nynn_mm_subgraph_storage.h:409-419 | The numbers of a page added at the bound are that page and consecutive offsets in it |
| BlockFormat.DivModAgree | nynn_mm/inc/nynn_mm_subgraph_storage.h:107-148 | The remainder and quotient the model computes by subtraction are the unsigned `%` and `/` |
| BlockFormat.SizeField | nynn_mm/inc/nynn_mm_types.h:126-138 | The content size of a block is the 16-bit number in the low half of its word 7, whatever the other half holds |
| BlockFormat.SizeMoves | nynn_mm/inc/nynn_mm_subgraph_set.h:373-380 | Adding and subtracting a content size moves a vertex size by the low half of that word, modulo 2^32 |
| BlockFormat.SizeMovesBy | nynn_mm/inc/nynn_mm_subgraph_set.h:373-380 | When the word is n + 65536 * hi for a 16-bit n, the size moves by exactly n |
| BlockStore.BlockMemory.constructor | nynn_mm/inc/nynn_mm_subgraph_storage.h:280-313 | A new store holds the volume and no overflow page |
| BlockStore.BlockMemory.GetBlock | nynn_mm/inc/nynn_mm_subgraph_storage.h:217-234 | Whatever the table holds, the result names the home of the block (volume index, or page and offset), fails exactly on numbers outside the store, and leaves the table as one access of that page does |
| BlockStore.BlockMemory.HeldPage | nynn_mm/inc/nynn_mm_subgraph_storage.h:217-234 | On any table, a block pointer held while another block is looked up stays good if and only if the two do not lie in different overflow pages of one slot |
| BlockStore.BlockMemory.LoadBlock | nynn_mm/inc/nynn_mm_subgraph_storage.h:217-258 | Reads the block as a store with all pages mapped would |
| BlockStore.BlockMemory.StoreBlock | nynn_mm/inc/nynn_mm_subgraph_storage.h:263-269 | Changes one block of that store and no other, on whichever page it lies |
| BlockStore.BlockMemory.InitIndexBlock | nynn_mm/inc/nynn_mm_types.h:158 | Clears the count word, which is also the source field of a live block |
| BlockStore.BlockMemory.IsAtBottom | nynn_mm/inc/nynn_mm_types.h:159 | True exactly of a block with one index |
| BlockStore.BlockMemory.IsAtTop | nynn_mm/inc/nynn_mm_types.h:160 | True exactly of a block filled to capacity |
| BlockStore.BlockMemory.PushIndex | nynn_mm/inc/nynn_mm_types.h:161 | Increments the count and writes the word it then points to, and nothing else |
| BlockStore.BlockMemory.PopIndex | nynn_mm/inc/nynn_mm_types.h:162 | Returns the word the count points to and decrements the count, and nothing else |
| BlockStore.BlockMemory.AddPage | nynn_mm/inc/nynn_mm_subgraph_storage.h:409-417 | Appends one page of zero blocks and keeps every other block; the store stays consistent if and only if the bound stays within the largest block number |
| SubgraphStorage.Storage.Format | nynn_mm/inc/nynn_mm_subgraph_storage.h:305-318 | Throws exactly on a first vertex number that is not aligned; otherwise all numbers are on the stack, 0 on top, and the subgraph is sound (then the fresh one, numbered from the given vertex) if and only if the end of the interval is below 2^32 |
| SubgraphStorage.Storage.SetMinVtxno | nynn_mm/inc/nynn_mm_subgraph_storage.h:78-86 | With the 32-bit end of the loop: numbers the vertices consecutively, with no data, no size and no blocks, or leaves them zero, which stores no lists, where the end wraps around; throws when the first number is not aligned |
| SubgraphStorage.FormatLastInterval | nynn_mm/inc/nynn_mm_subgraph_storage.h:78-86 | For intervals of 8 vertices, formatting the last interval 0xFFFFFFF8 returns and leaves an unsound subgraph |
| SubgraphStorage.Storage.Release | nynn_mm/inc/nynn_mm_subgraph_storage.h:211-215 | Throws exactly on a number outside the store; otherwise pushes a number in use on the free stack and changes no live block, and leaves no free list at all for a number that is free already |
| SubgraphStorage.Storage.ReleaseWords | nynn_mm/inc/nynn_mm_subgraph_storage.h:425-444 | The words it writes: a new head of one index where there is no head with room, and else one more index in the head |
| SubgraphStorage.Storage.ReleaseAsWritten | nynn_mm/inc/nynn_mm_subgraph_storage.h:425-444 | With the block pointer held across the second look-up, for any number: does what `Release` does, except that it writes to unmapped memory if and only if the head is full and lies in another overflow page of the same slot, which the stack alone determines |
| SubgraphStorage.FaultsIff | nynn_mm/inc/nynn_mm_subgraph_storage.h:425-444 | The head is full and displaces the released page if and only if the number of free blocks is a positive multiple of the capacity and the entry one capacity below the top lies in another page of the same slot |
| SubgraphStorage.RunNeverFaults | nynn_mm/inc/nynn_mm_subgraph_storage.h:425-444 | In any run of list operations that ends with a slot for every overflow page, no release faults at any point of the run |
| SubgraphStorage.PageReleaseStays | nynn_mm/inc/nynn_mm_subgraph_storage.h:418-420 | The releases of a page just added never fault, however many pages there are |
| SubgraphStorage.FaultReached | nynn_mm/inc/nynn_mm_subgraph_storage.h:425-444 | Formatting, nine calls of `require` and the release of the first block fault when two pages of eight blocks share the only slot |
| SubgraphStorage.PushedStack | nynn_mm/inc/nynn_mm_subgraph_storage.h:425-444 | On a stack without the number, the words of a release store the stack with the number on top |
| SubgraphStorage.PushedOnly | nynn_mm/inc/nynn_mm_subgraph_storage.h:425-444 | Conversely, any stack the words of a release store has the number on top of a stack the old words stored |
| SubgraphStorage.PushedTwice | nynn_mm/inc/nynn_mm_subgraph_storage.h:425-444 | So the words left by releasing a free number store no stack of distinct numbers |
| SubgraphStorage.Storage.StartHead | nynn_mm/inc/nynn_mm_subgraph_storage.h:433-437 | The branch that makes the released block the new head, with the old head as its only index |
| SubgraphStorage.Storage.ExtendHead | nynn_mm/inc/nynn_mm_subgraph_storage.h:438-444 | The branch that writes the number into the old head and counts it there |
| SubgraphStorage.Storage.RequireAllocated | nynn_mm/inc/nynn_mm_subgraph_storage.h:390-407 | Pops the free stack and changes no live block, or reports that it is empty |
| SubgraphStorage.Storage.GiveHead | nynn_mm/inc/nynn_mm_subgraph_storage.h:401-404 | The branch that hands out the head block pops the stack |
| SubgraphStorage.Storage.GiveIndex | nynn_mm/inc/nynn_mm_subgraph_storage.h:405-407 | The branch that hands out an index pops the stack too |
| SubgraphStorage.Storage.ReleasePage | nynn_mm/inc/nynn_mm_subgraph_storage.h:418-420 | The reverse loop leaves the numbers of the new page on the stack, lowest on top |
| SubgraphStorage.Storage.RequireUnallocated | nynn_mm/inc/nynn_mm_subgraph_storage.h:409-423 | Gives the first number of a new page and stacks the rest; throws exactly when the page does not fit, and then stack, head and all stored blocks are as they were and the store stays consistent if and only if the bound could not move |
| SubgraphStorage.Storage.Require | nynn_mm/inc/nynn_mm_subgraph_storage.h:203-209 | Succeeds exactly when the stack is not empty or a page fits, gives the top of the (refilled) stack and changes no live block; otherwise leaves what `RequireUnallocated` leaves |
| SubgraphSet.Push | nynn_mm/inc/nynn_mm_subgraph_set.h:373-401 | In the block words: appends the block that `require` gives and adds the low half of word 7 of the buffer to the vertex size, modulo 2^32; all lists stay doubly linked, sized and disjoint from the free stack. When `require` throws, every stored block and list is as before, the vertex has been resized all the same, and the subgraph is sound if and only if the bound could not move |
| SubgraphSet.Unshift | nynn_mm/inc/nynn_mm_subgraph_set.h:318-345 | The same for prepending |
| SubgraphSet.InsertPrev | nynn_mm/inc/nynn_mm_subgraph_set.h:219-250 | For any number. The same for insertion before a block of the vertex, or at the end for the invalid number. Before a block of another vertex: a null pointer at the front of its list, elsewhere words that store no lists at all. Otherwise a null pointer, always outside the store, or words that store no subgraph |
| SubgraphSet.LinkBefore | nynn_mm/inc/nynn_mm_subgraph_set.h:229-249 | The inner branch: inserts before the named block of the vertex and throws without resizing it; with any other number it ends as said above |
| SubgraphSet.PlaceBefore | nynn_mm/inc/nynn_mm_subgraph_set.h:238-248 | The word writes of the inner branch of insertPrev for any numbers, and when they follow a null pointer |
| SubgraphSet.InsertNext | nynn_mm/inc/nynn_mm_subgraph_set.h:252-283 | For any number. The same for insertion after a block of the vertex, or at the front for the invalid number; after a block of another vertex, a null pointer at the end of its list, elsewhere words that store no lists at all; otherwise as for `InsertPrev` |
| SubgraphSet.LinkAfter | nynn_mm/inc/nynn_mm_subgraph_set.h:262-282 | The inner branch: inserts after the named block of the vertex and throws without resizing it; with any other number it ends as said above |
| SubgraphSet.PlaceAfter | nynn_mm/inc/nynn_mm_subgraph_set.h:271-281 | The word writes of the inner branch of insertNext for any numbers, and when they follow a null pointer |
| SubgraphSet.Shift | nynn_mm/inc/nynn_mm_subgraph_set.h:347-371 | Drops the first block, which becomes the top of the free stack, and takes the low half of its word 7 off the vertex size; nothing happens on an empty list |
| SubgraphSet.PopRepaired | nynn_mm/inc/nynn_mm_subgraph_set.h:403-427 | The evident intent: the same for the last block, also from a one-block list |
| SubgraphSet.Pop | nynn_mm/inc/nynn_mm_subgraph_set.h:403-427 | As written: drops the last block of a longer list; on a one-block list it frees the block and leaves the head on it, and the subgraph is sound afterwards if and only if the list did not have one block |
| SubgraphSet.Remove | nynn_mm/inc/nynn_mm_subgraph_set.h:285-316 | For any number. Deletes the named block of the vertex, pushes it on the free stack and takes the low half of its word 7 off the vertex size. An inner block of another vertex is deleted from its list but its size is taken off this vertex; an end of another list leads to a null pointer; a number on no list leads to a null pointer, always outside the store, or to words that store no subgraph |
| ListSoundness.InsertionSound | nynn_mm/inc/nynn_mm_subgraph_set.h:318-401 | Every vertex list is stored soundly after the link writes of one insertion, whatever list and position |
| ListSoundness.RemovalSound | nynn_mm/inc/nynn_mm_subgraph_set.h:285-427 | Every vertex list is stored soundly after the link writes of one removal |
| ListSoundness.ResizedSound | nynn_mm/inc/nynn_mm_subgraph_set.h:373-380 | Vertex sizes alone never make stored lists unsound |
| ListSoundness.ForeignBlock | nynn_mm/inc/nynn_mm_subgraph_set.h:229-249 | Once the links of a list reach a block that names another vertex, the words store no lists at all |
| StrayBlocks.SameList | nynn_mm/inc/nynn_mm_subgraph_set.h:175-186 | Head and next words determine a list: where they are unchanged, every subgraph the words store has the same list |
| StrayBlocks.StrayBefore | nynn_mm/inc/nynn_mm_subgraph_set.h:229-249 | insertPrev next to a free block that does not crash leaves words that store no subgraph, whatever the words of that block name |
| StrayBlocks.StrayAfter | nynn_mm/inc/nynn_mm_subgraph_set.h:262-282 | The same for insertNext |
| StrayBlocks.StrayRemoved | nynn_mm/inc/nynn_mm_subgraph_set.h:305-315 | remove of a free block that does not crash leaves words that store no subgraph, whatever the words of that block name |
| ListSoundness.BlockFacts | nynn_mm/inc/nynn_mm_subgraph_set.h:219-427 | The next and prev words of a listed block name its neighbours in the list, and every link followed stays among live blocks, never in an index block |
| ListSoundness.HeaderWords | nynn_mm/inc/nynn_mm_types.h:68-75 | A listed block has its vertex in word 0, the number of the block before it in word 1 and of the one after it in word 2, or 0xFFFFFFFF, and its content from word 3 on |
| ListSoundness.VertexFacts | nynn_mm/inc/nynn_mm_subgraph_set.h:219-427 | Head and tail of a vertex are the ends of its list, both invalid exactly when it is empty |
| BlockLists.InsertLinks | nynn_mm/inc/nynn_mm_subgraph_set.h:229-249 | Four link writes turn a stored list into the stored list with one more block |
| BlockLists.DeleteLinks | nynn_mm/inc/nynn_mm_subgraph_set.h:305-315 | Two link writes turn a stored list into the stored list without the block |
| SubgraphReads.WalksMirror | nynn_mm/inc/nynn_mm_subgraph_set.h:175-186 | The walk from the head by next and the walk from the tail by prev visit the same blocks in opposite order and both end |
| SubgraphReads.ReadAllBlknos | nynn_mm/inc/nynn_mm_subgraph_set.h:175-186 | Terminates on every sound state and returns the list |
| SubgraphReads.Readn | nynn_mm/inc/nynn_mm_subgraph_set.h:193-212 | As written, from any number whose walk ends, which it needs to return: a positive count returns the last block of the walk alone, or throws where it leaves the store; a negative count throws, zero returns nothing |
| SubgraphReads.ReadnRepaired | nynn_mm/inc/nynn_mm_subgraph_set.h:193-212 | With the count advanced, from any number: returns the blocks of at most n steps along the links in the direction of the sign, or throws where they leave the store |
| SubgraphReads.FollowSpan | nynn_mm/inc/nynn_mm_subgraph_set.h:193-212 | From a block in use, of any vertex, these walks are the runs of the list that has it, and they end with it |
| SubgraphReads.SpanBlocks | nynn_mm/inc/nynn_mm_subgraph_set.h:193-212 | A run of n blocks from position k has n blocks, or as many as the list has left in that direction, and its i-th block is the block i positions on |
| SubgraphReads.ReadnRightIff | nynn_mm/inc/nynn_mm_subgraph_set.h:193-212 | For positive counts the written `readn` agrees with the intended one if and only if it is asked for the last block of the list |
| PopDefect.PopThenUnshift | nynn_mm/inc/nynn_mm_subgraph_set.h:318-427 | From every sound one-block list, the written pop followed by unshift hands out the same block and links it to itself, so the walk of `readAllBlknos` never ends, and the words store no lists at all |
| ListSoundness.DanglingUnsound | nynn_mm/inc/nynn_mm_subgraph_set.h:403-427 | Words in which a vertex has a head and no tail store no lists, whatever lists are meant |
| Producer.Perform | nynn_mm/inc/nynn_mm_subgraph_set.h:219-427 | For every call on a sound subgraph: the method called, on the block words, does what the fate of the call says. A regular call does exactly the abstract step and replies with the block the model hands out; one that throws leaves every stored block as it was, and the subgraph sound if and only if the bound could not move; one that spoils answers and leaves no lists stored; one that strays crashes or leaves no subgraph stored |
| Producer.Write | nynn_mm/src/producer/src/ProducerDaemon.cpp:100-185 | For every call on replicas that agreed: a regular call leaves them in agreement and the returned number names the same block in each; one that spoils spoils each; one that throws or crashes does so at the first replica and leaves the others as they were, and after a throw they agree if and only if it left no trace |
| Producer.Serve | nynn_mm/src/producer/src/ProducerDaemon.cpp:100-185 | Over any run of serialized regular calls, also ones that remove inner blocks of other vertices, all replicas end in the state of the run and the replies are those of the model |
| Producer.RunsServed | nynn_mm/src/producer/src/ProducerDaemon.cpp:100-185 | The runs of the abstract machine are such runs, with the repaired pop all of them and with the written one those that pop no one-block list, and both come to the same subgraph |
| Producer.ServedOwnership | nynn_mm/src/producer/src/ProducerDaemon.cpp:100-185 | After any such run every number below the bound occurs exactly once over the free stack and all vertex lists |
| Producer.SequentialReplies | nynn_mm/inc/nynn_mm_subgraph_storage.h:310-423 | From a fresh format, the replies of a run of insertions are the numbers 0, 1, 2, ... |
| Producer.ThrowsIff | nynn_mm/inc/nynn_mm_subgraph_storage.h:203-209 | A call throws if and only if it is an insertion, the stack is empty and no further page fits |
| Framing.ChunkingIndependence | nynn/src/nynn_daemon.cpp:407-546 | Feeding any split of a stream into chunks gives the same frames and fragment as parsing the concatenation, whatever came before |
| Framing.FramesExhaust | nynn/src/nynn_daemon.cpp:407-546 | The frames of a stream followed by its rest are the stream; each frame is complete and the rest is none |
| Framing.FramesOfFlatten | nynn/src/nynn_daemon.cpp:407-546 | Frames laid end to end parse back to themselves with nothing left over |
| Framing.FramesOfPrefix | nynn/src/nynn_daemon.cpp:407-546 | A prefix of frames laid end to end parses to a prefix of the frames |
| Framing.MessageRoundTrip | nynn/src/nynn.cpp:145-260 | The frame built from host, id and body carries its own length, and its host, id and body are recovered |
| Framing.LayoutBytes | nynn/src/nynn.cpp:150-167 | In that frame bytes 0 to 7 are the size in little-endian order, the host is at byte 8 and the id at byte 24, both padded with zeros, and the body at byte 64 |
| Framing.CStringIs | nynn/src/nynn_daemon.cpp:455-480 | The id a frame is routed by is the bytes up to the first zero byte, or all of them |
| Framing.DecodeEncode | nynn/src/nynn.cpp:164 | The size field decodes to the size encoded |
| Framing.DecodeAppend | nynn/src/nynn_daemon.cpp:453 | The bytes after the first m count 256 to the power m as much: the field is little-endian |
| Framing.SizeBytes | nynn/src/nynn_daemon.cpp:453 | The size field of a stream is its first eight bytes in little-endian order, written out |
| Framing.FirstFrameAt | nynn/src/nynn_daemon.cpp:440-486 | A stream that starts with the bytes n, 0, 0, 0, 0, 0, 0, 0 for an n of at least 64 has its first frame after exactly n bytes, and none before they are there |
| LinkReader.Reader.constructor | nynn/src/nynn_daemon.cpp:407-434 | A new link has no fragment and has received nothing |
| LinkReader.Reader.Start | nynn/src/nynn_daemon.cpp:440-486 | A pass without fragment takes a whole frame, or keeps what there is, also when the chunk ends inside the size field |
| LinkReader.Reader.Continue | nynn/src/nynn_daemon.cpp:487-540 | A pass with a fragment completes the size field, the frame, or keeps everything |
| LinkReader.Reader.CompleteOrKeep | nynn/src/nynn_daemon.cpp:505-540 | Once the size is known the frame is completed with exactly the bytes missing, or the bytes are all kept |
| LinkReader.Reader.HandleChunk | nynn/src/nynn_daemon.cpp:435-542 | The pointer loop delivers exactly the frames the chunk completes, in order, and the cached fragment is the rest of everything received; segments are attached and detached by turns, one pair for every frame |
| LinkReader.Reader.HandleTask | nynn/src/nynn_daemon.cpp:421-546 | The same over all chunks of a read task, which ends at the first chunk of less than 65536 bytes, all before it having that many |
| LinkReader.FrameInOneChunk | nynn/src/nynn_daemon.cpp:435-486 | A new link that receives a frame of n bytes in one chunk starting n, 0, 0, ... puts it at the end of the queue of the id at byte 24, or drops it when there is none, and keeps no fragment |
| LinkReader.DeliverAllRoutes | nynn/src/nynn_daemon.cpp:455-480 | Each registered queue grows by exactly the frames that carry its id, in order; frames of unknown ids change nothing |
| Delivery.Infuse | nynn/src/nynn.cpp:145-185 | Refuses a message larger than a segment may be, and otherwise lays out the frame of host, id and body |
| Delivery.Effuse | nynn/src/nynn.cpp:233-260 | Copies out the body of the frame the size field describes |
| Delivery.SendToken | nynn/src/nynn_daemon.cpp:379-402 | For any amounts the socket takes, what was sent followed by what is left is the token, and nothing is left exactly when the amounts cover it |
| Delivery.ReceiveChunk | nynn/src/nynn_daemon.cpp:435-542 | Handling one chunk with the reader is the receive step of the link, for any state of the link |
| Delivery.SendsRun | nynn/src/nynn_daemon.cpp:389-400 | The send calls for a token move as many of its first bytes to the wire as they offer or as it has |
| Delivery.TakeAndSend | nynn/src/nynn_daemon.cpp:379-402 | The loop of the writer on the next token is a take step and send steps of the link |
| Delivery.ExecutionKeeps | nynn/src/nynn_daemon.cpp:359-546 | In every execution of queueing, taking, partial sending and partial receiving, received, in-flight, unsent and queued bytes laid end to end are the queued frames |
| Delivery.HistoryIsQueued | nynn/src/nynn_daemon.cpp:359-402 | The history of a link is the frames its execution queued, in order |
| Delivery.InOrderDelivery | nynn/src/nynn_daemon.cpp:359-546 | In every execution the frames emitted are a prefix of those queued, routed by id, and all of them once nothing is in flight |
| Delivery.EndToEnd | nynn/src/nynn.cpp:145-260 | For every registered id, whatever other ids share the link, the bodies copied out under it are a prefix, in order, of the bodies put in under it, and all of them once nothing is in flight |
| ShmAccounting.AlwaysAccounted | nynn/inc/nynn_daemon.h:126-162 | In every interleaving the count is the sized fragments plus queued tokens plus the delayed token plus local deliveries plus tokens lost to unknown hosts, never above the limit |
| ShmAccounting.PerLink | nynn/src/nynn_daemon.cpp:548-602 | In every interleaving each link holds the messages queued on it less those taken from it, a fragment is sized when it was sized once more than it was done, and local deliveries and losses are counted in the same way |
| ShmAccounting.CountExactIff | nynn/src/nynn_daemon.cpp:548-602 | Between local deliveries nothing else is counted if and only if no message was ever addressed to an unknown host |
| ShmAccounting.RecoversIff | nynn/src/nynn_daemon.cpp:359-402 | From any accounted state, a segment can be attached again in some continuation if and only if the lost segments, and one more when a token is delayed or queued, are fewer than the limit |
| ShmAccounting.StarvesIff | nynn/src/nynn_daemon.cpp:548-602 | From a fresh daemon, after any run a segment can be attached again if and only if the messages for unknown hosts, and one more when any other message was queued, are fewer than the limit |
| ShmAccounting.PinnedAfter | nynn/src/nynn_daemon.cpp:382-386 | In every run exactly the messages for unknown hosts are lost, and a token stays delayed or queued from the first message for a known host on |
| ShmAccounting.OneMessageStarves | nynn/src/nynn_daemon.cpp:382-386 | With a limit of one, queueing and sending a single message loses no segment, and yet none can be attached again |
| ShmAccounting.LossIsForGood | nynn/src/nynn_daemon.cpp:548-602 | A corollary of `RecoversIff` for losses alone: once they are as many as the limit, no segment can be attached again in any continuation |
| ShmAccounting.LossReached | nynn/src/nynn_daemon.cpp:592-598 | One message to an unknown host after the other, each loses one segment |
| ShmAccounting.StarvedFromStart | nynn/src/nynn_daemon.cpp:592-598 | Such a run exists from a fresh daemon: as many messages to unknown hosts as the limit, one after the other (`StarvesIff` has the exact condition) |
| ShmAccounting.ReaderRuns | nynn/src/nynn_daemon.cpp:435-542 | Attaching and detaching by turns is a run of the segment counter whenever its first step can be taken, and changes nothing but the segment of the link and the count |
| ShmAccounting.ReadChunk | nynn/src/nynn_daemon.cpp:435-542 | Handling one chunk with the reader is a run of its attach and detach steps: two for every frame completed, one less for a segment held before, one more for one held after |
| LruModel.HoldsMostRecent | nynn_mm/inc/nynn_mm_graph_cache.h:48-94 | After any history a bucket holds exactly the first window-many keys in order of last touch, without repetition |
| LruModel.SurvivesIff | nynn_mm/inc/nynn_mm_graph_cache.h:48-94 | A key is in its bucket if and only if it was touched and fewer than the window of other keys were touched since |
| LruModel.HitsAreLatest | nynn_mm/inc/nynn_mm_graph_cache.h:48-94 | Every hit returns the data of the latest write of that key |
| CachedRun.HeldAfterWrite | nynn_mm/inc/nynn_mm_graph_cache.h:64-94 | A write of another block pushes the latest ones down by one, for any bucket |
| CachedRun.RunFound | nynn_mm/inc/nynn_mm_graph_cache.h:64-94 | In a bucket that was given a run of different blocks, each block of the run is found if and only if fewer than the window of later ones fell into the bucket |
| GraphCache.SlotConservation | nynn_mm/inc/nynn_mm_graph_cache.h:75-81 | When free and bucket chains partition the slots and no bucket exceeds its window, free entries plus bucket lengths are the slots, and a bucket below its window leaves a free entry |
| GraphCache.FreeLeft | nynn_mm/inc/nynn_mm_graph_cache.h:139-146 | Hence in every valid cache `popFreeEntry` called below the window finds an entry |
| GraphCache.Cache.constructor | nynn_mm/inc/nynn_mm_graph_cache.h:96-117 | A new cache has empty buckets and all entries on the free list |
| GraphCache.Cache.WindowIsShare | nynn_mm/inc/nynn_mm_graph_cache.h:27 | The window is the largest number of entries that every bucket can have at once |
| GraphCache.Cache.Find | nynn_mm/inc/nynn_mm_graph_cache.h:127-137 | Follows the chain to the entry of the key, or to none exactly when the bucket does not hold it |
| GraphCache.Cache.Read | nynn_mm/inc/nynn_mm_graph_cache.h:48-62 | Returns what the bucket holds for the key, moves a hit to the front and leaves every other bucket as it was |
| GraphCache.Cache.Write | nynn_mm/inc/nynn_mm_graph_cache.h:64-94 | Replaces and moves to the front, prepends below the window, or evicts the last block and prepends at it; every other bucket is as it was |
| GraphCache.Cache.Place | nynn_mm/inc/nynn_mm_graph_cache.h:64-90 | The entry to be written is put first in its bucket and belongs to no other bucket |
| GraphCache.Cache.MoveFront | nynn_mm/inc/nynn_mm_graph_cache.h:162-191 | Moves one entry of a bucket to its front by link writes alone, keeping all chains and the free list intact |
| GraphCache.Cache.PopFreeEntry | nynn_mm/inc/nynn_mm_graph_cache.h:139-146 | Takes the first entry off the free list |
| GraphCache.Cache.PushFront | nynn_mm/inc/nynn_mm_graph_cache.h:193-216 | Link writes and count of a prepended entry |
| GraphCache.Cache.Admit | nynn_mm/inc/nynn_mm_graph_cache.h:75-81 | Moves a free entry to the front of a bucket below its window, keeping all chains disjoint |
| GraphCache.Cache.Serve | nynn_mm/inc/nynn_mm_graph_cache.h:48-94 | For every history on a new cache, each bucket is what its own events make of it and every read returned what its bucket then held. By what the caller sees: a read hits if and only if its block was touched, by a write or a hit, and the other blocks of its bucket touched since then, plus one, times the buckets are no more than the entries; and a hit returns what was last written |
| CacheLinks.CutOk | nynn_mm/inc/nynn_mm_graph_cache.h:162-178 | The removal half of move_front leaves the chain of the list without that entry |
| CacheLinks.PushOk | nynn_mm/inc/nynn_mm_graph_cache.h:193-216 | The insertion half leaves the chain of the list with the entry in front |
| CacheLinks.AdmittedOk | nynn_mm/inc/nynn_mm_graph_cache.h:75-81 | Moving a free entry to a bucket keeps the partition of the entries into free list and buckets |
| LoadAccounting.LeastLoaded | nynn_mm/inc/nynn_mm_graph_table.h:98-110 | A host of the given set than which no other has a smaller load, the first by name among equals |
| LoadAccounting.LeastLoadedServes | nynn_mm/inc/nynn_mm_graph_table.h:98-110 | The host `min_element` finds has no greater load than any other, and the first name among equals |
| GraphTable.Table.SelectReplicHosts | nynn_mm/inc/nynn_mm_graph_table.h:72-91 | Returns distinct hosts, `replica` many, or one when that is zero, none more loaded than an unchosen one, each counted once; among equals any may be taken |
| GraphTable.Table.SelectHost | nynn_mm/inc/nynn_mm_graph_table.h:98-110 | Returns the host of those given with no greater access load than any other, the first by name among equals, and counts it once |
| GraphTable.Table.Refresh | nynn_mm/inc/nynn_mm_graph_table.h:265-272 | The key is served by one of its hosts than which no other has a smaller access load once the old server is relieved, nor an equal one and an earlier name; the old server is counted down and the new one up, so that no access counter drifts from the keys the host serves |
| GraphTable.Table.Create | nynn_mm/inc/nynn_mm_graph_table.h:163-173 | For any key and whatever greedy choice of `replica` many hosts is made (one when that is zero): it is stored on its hosts and those chosen and gets the least loaded of them as server; exact loads stay exact if and only if none of the hosts chosen stored the key already |
| GraphTable.Table.Destroy | nynn_mm/inc/nynn_mm_graph_table.h:176-185 | The key is gone from both maps, and no counter drifts from what it counts |
| GraphTable.Table.Recycle | nynn_mm/inc/nynn_mm_graph_table.h:199-209 | As written, for any host but the only one: it leaves the hosts of the key and joins the corrupted ones, and no other entry changes; a key it served gets the least loaded of the hosts left as server, any other keeps its server. Exact loads stay exact if and only if the host stored the key and did not serve it; otherwise exactly its own counters are off, by one each |
| GraphTable.Table.RecycleRepaired | nynn_mm/inc/nynn_mm_graph_table.h:199-209 | Without the first decrement: the same for hosts and servers; exact loads stay exact if and only if the host stored the key |
| GraphTable.Table.Restore | nynn_mm/inc/nynn_mm_graph_table.h:212-221 | A host takes a key (back): it joins the hosts of the key and leaves the corrupted ones, no other entry changes, and the key gets the least loaded of its hosts as server; exact loads stay exact if and only if it did not store the key already |
| GraphTable.Table.SetAllSgkeys | nynn_mm/inc/nynn_mm_graph_table.h:232-241 | For any list of keys: each is added to the hosts of the key, every report in turn gives its key the least loaded of its hosts as server, and the storage counter of the host is ahead by the reports that were not new; exact loads stay exact if and only if all keys are new to the host and none is reported twice |
| GraphTable.NewPairsIff | nynn_mm/inc/nynn_mm_graph_table.h:232-241 | All reports count as new if and only if no key is reported twice or was known already |
| GraphTable.CreateAll | nynn_mm/inc/nynn_mm_graph_table.h:163-173 | From equal loads, after any number of creations all storage loads are within one of each other; for fresh keys exact loads stay exact and each key has `replica` many hosts, or one when that is zero |
| GraphTable.RunDrift | nynn_mm/inc/nynn_mm_graph_table.h:163-241 | Over any mixed run of create, destroy, recycle, restore and setAllSgkeys, with any greedy choices, each counter drifts from what it counts by exactly the sum of what the calls charge it |
| GraphTable.RunExactIff | nynn_mm/inc/nynn_mm_graph_table.h:163-241 | From exact loads, such a run ends with exact loads if and only if the charges of each host add up to nothing, in 32 bits |
| GraphTable.ProperRunExact | nynn_mm/inc/nynn_mm_graph_table.h:163-241 | A run that creates and reports new keys only, restores to hosts that do not store the key and recycles from hosts that store but do not serve it ends with every load equal to the number of keys its host stores or serves, in 32 bits |
| GraphTable.Serve | nynn_mm/inc/nynn_mm_graph_table.h:163-241 | Every such run on a table is a trace of those charges, of greedy choices of `replica` many hosts and of the servers that each call sets, up to the first call that has no host to select, and keys stay served by one of their hosts throughout |
| LoadAccounting.GreedyKeepsBalance | nynn_mm/inc/nynn_mm_graph_table.h:72-91 | A greedy choice of hosts from balanced loads leaves balanced loads |
| LoadAccounting.ExactMeans | nynn_mm/inc/nynn_mm_graph_table.h:163-241 | The loads of a table are exact if and only if each is the number of keys its host stores or serves, in 32 bits |
| LoadAccounting.ExactIff | nynn_mm/inc/nynn_mm_graph_table.h:163-241 | Counters of one host that moved apart from what they count leave exact loads exact if and only if they moved by nothing, in 32 bits |
| GraphTable.Table.EnsureHosts | nynn_mm/src/producer/src/ProducerDaemon.cpp:33-47 | The hosts of a key are found, and then nothing changes, or a greedy choice of `replica` many (one when that is zero) is made on first use; either way they are the hosts stored for it, and no counter drifts |
| Graph.ReadThrough | nynn_mm/inc/nynn_mm_graph.h:66-91 | Over the intended readn and unchanging stores, the caller gets the block asked for whatever the cache holds of this and other subgraphs, and the cache keeps holding true blocks of all of them |
| Graph.Fetch | nynn_mm/inc/nynn_mm_graph.h:74-85 | A miss returns the first block of the run read; of the run, each block is cached under its own number unless a window of later ones fell into its bucket, so that the next reads of the run hit; cached blocks of other subgraphs stay true |
| Graph.ReadThroughAsWritten | nynn_mm/inc/nynn_mm_graph.h:66-91 | Over the written readn, a miss returns and caches the last block of the list, which is the block asked for if and only if that is the last one |
| Graph.StaysCoherent | nynn_mm/inc/nynn_mm_graph.h:66-91 | A cache operation that writes no false item leaves a bucket of true items, where items of unknown subgraphs are unconstrained |
| Graph.HitIsTrue | nynn_mm/inc/nynn_mm_graph.h:73 | A hit in a bucket of true items is the block of the store |
| Graph.KeyUnique | nynn_mm/inc/nynn_mm_subgraph_set.h:446 | The intervals of subgraphs do not overlap: a vertex lies in the interval that starts at its key and in no other |
| Agents.Agent.constructor | nynn_mm/inc/nynn_mm_graph.h:15-34 | An agent with an empty cache over sound stores keeps the invariant that its reads need |
| Agents.Agent.Read | nynn_mm/inc/nynn_mm_graph.h:66-91 | With one cache for the subgraphs of all hosts and those of its own host read directly: the answer is the block asked for, and no store changes |
| Agents.Agent.Serve | nynn_mm/inc/nynn_mm_graph.h:66-91 | In any run of reads over any subgraphs every answer is the block asked for |

## Left out

- Files, `mmap`, `munmap`, `msync`, `glob`, path strings and system calls: the volume and the overflow pages are
  in-memory block sequences, and writing through a mapped page writes the page.
- SubgraphStorage.Storage.Release: writes to blocks by number; `ReleaseAsWritten` has the held pointer.
- SubgraphStorage.Storage.Format: takes the first vertex number as an argument, because parsing it from the path
  is not part of this model.
- SubgraphSet.InsertPrev: for a free block says that it crashes or ruins the subgraph, not which, because that depends
  on words that the block kept from earlier use; the same for `InsertNext` and `Remove`.
- SubgraphReads.ReadnRepaired: reserves for the absolute count, which is part of the repair.
- SubgraphTheorems.RunSizes: sizes are exact modulo 2^32, because the counter wraps.
- Producer.Write: takes one handler call as one step, and the vertex locks it holds are not modelled. What a provider
  does after a crash is not part of the model.
- GraphTable.Table.Recycle: asks that the host is not the only one of the key, because the code otherwise takes the
  minimum of an empty range, and that it is not named "UNKNOWN".
- GraphTable.Table.Create: asks for as many hosts as the replica count, because the code otherwise reads the front of
  an empty heap.
- GraphTable.Table.Destroy: a key that is not placed still decrements a counter kept under the name "UNKNOWN",
  which is no host; that counter is not accounted for.
- GraphTable.Table.EnsureHosts: the remote createSubgraph and attachSubgraph calls are not part of it, and the
  missing return after a creation is read as returning the hosts.
- GraphTable.CreateAll: asks that the load counters are far enough from 2^32 not to wrap.
- LinkReader.Reader.HandleTask: asks, like the reader itself, that every size field is at least the header size;
  `recv` is a list of received chunks, and an error or a closed connection ends it.
- Delivery.SendToken: a send that would block counts as taking 0 bytes; socket errors are not modelled.
- Delivery.EndToEnd: is about one link; the order between different links is not modelled.
- ShmAccounting.AlwaysAccounted: each manager call and its queue operation is one atomic step, and attaching
  always succeeds.
- ShmAccounting.ReadChunk: runs without steps of other threads in between, so it asks that its first call does not
  have to wait.
- The writer thread's use of the first link's lock for all links: it only serializes writers further.
- Graph.ReadThrough: is about stores that do not change, because the code never invalidates the agent's cache, and
  about blocks of the vertex named. `SubgraphKey` rounds down to a multiple of the interval width, which is the mask of
  the source where the width is a power of two.
- Agents.Agent.Read: finds the store of a subgraph by its key; which host serves it and the refresh of that map are
  not part of it.
- Hit counters of the cache, timestamps, edge weights and dump methods: no property depends on them.
- Attaching and detaching subgraphs, subgraph map look-ups, and the lock flags of vertices.
- Registration of taps with the daemon: the routing map is given when a link starts, and frames for ids not in it
  are dropped, as the reader does.
- Thrift-generated code, RPC wrappers, epoll, option and configuration parsing, logging, Boss and Employee,
  assignment, semaphores and file locks: generated, pass-through or without state worth a property.
