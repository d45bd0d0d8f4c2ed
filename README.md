# Fixed-block arena and arena-backed queue

This project models the two cooperating components of kkoevv/OOP5 and proves properties of them.

**`FixedMemoryResource`** is a `std::pmr::memory_resource`. It owns one block of `pool_size_` bytes and a bump cursor `current_offset_`. It keeps two tables:
- `allocated_blocks_`, a map from address to size (the occupied regions);
- `free_blocks_`, a size-keyed multimap (the released regions waiting for reuse).

An allocation first reuses the first free entry that is large enough and aligned, scanning in ascending size. Otherwise it carves a new region at the cursor rounded up to the alignment, or fails with `bad_alloc`. A release moves an occupied region into the free table, or fails with `invalid_argument` for an address that is not currently occupied (one never handed out or already released).

**`Queue<T>`** is a singly linked FIFO list. Every `push` takes one node from the arena and every `pop` gives one back. It also has `front`/`back`, `empty`/`size` and `clear`, deep copy, constant-time move, and a forward `Iterator`.

The Dafny files:

- `wrappers.dfy` (module `Wrappers`): `Option`, `Result`, `Outcome` and the four error kinds.
  - `OutOfMemory` stands for `bad_alloc`.
  - `UnknownBlock` stands for `invalid_argument`.
  - `EmptyQueue` and `EndCursorDereference` stand for the two `runtime_error`s.
- `arena_spec.dfy` (module `ArenaSpec`): the arena's bookkeeping as a value.
  - A `State` holds the capacity, the cursor, the occupied map and the free table.
  - The free table is a sequence of `FreeEntry(size, addr)` in ascending size, with equal sizes in insertion order, which is how `multimap::insert` orders equal keys.
  - `Allocate` and `Release` are functions on a `State`. The lemmas here state what they guarantee.
- `fixed_memory_resource.dfy` (module `MemoryResource`): the class `FixedMemoryResource`. It has the fields of the program's object. `Allocate`, `Deallocate` and `FindFreeBlock` are proved to change them exactly as the matching `ArenaSpec` function says. The constructors, `MoveAssign` and `Cleanup` state the new fields directly, and the observers read them. `FindFreeBlock` is the program's iterator loop, proved against the reference definition `ArenaSpec.FirstFit`.
- `queue.dfy` (module `LinkedQueue`): the class `Queue<T>`.
  - Its fields are `head`, `tail` and `size`, plus a node table keyed by arena offset, which stands for the node storage.
  - Its ghost fields are the abstract value `contents`, the node offsets `addrs`, and `owner`, the arena the nodes came from.
  - `Valid()` ties the linked chain to `contents`. It also requires every node to be an occupied, aligned region of the queue's own arena.
  - This module also holds the class `Iterator<T>`, and `Collect`, a caller's `begin()`/`end()` loop.
- `scenarios.dfy` (module `QueueScenarios`): whole-program situations from the repository's tests. Each is a method whose postcondition is what the test checks: the arena tests, the cyclic push/pop test, modification through the iterator and copy independence. This module also holds the two move-assignment situations of the finding below.

Addresses are offsets into the pool, with the pool at offset 0.

## Model

| member | source | states |
|---|---|---|
| ArenaSpec.AlignUp | src/fixed_memory_resource.cpp:66-69 | the rounded-up offset is a multiple of the alignment, at least the input and less than input plus alignment |
| ArenaSpec.AlignUpOfMultiple | src/fixed_memory_resource.cpp:69 | an offset that is already a multiple of the alignment is not moved |
| ArenaSpec.FirstFit | src/fixed_memory_resource.cpp:119-134 | the chosen index is large enough and aligned and no earlier entry is; none exactly when no entry is both large enough and aligned |
| ArenaSpec.LowerBound | src/fixed_memory_resource.cpp:120 | `multimap::lower_bound`: every earlier entry is smaller than the request, and in a sorted table every later one is at least as large |
| ArenaSpec.UpperBound | src/fixed_memory_resource.cpp:100 | `multimap::insert` position: every earlier entry is not larger, and in a sorted table every later one is larger |
| ArenaSpec.FirstFitIs | src/fixed_memory_resource.cpp:120-129 | the first index that fits and has no fitting predecessor is the one `FirstFit` gives |
| ArenaSpec.RemoveAtSorted | src/fixed_memory_resource.cpp:127 | erasing one free entry keeps the table in size order |
| ArenaSpec.InsertFreeIndex | src/fixed_memory_resource.cpp:100 | insertion shifts later entries by one and keeps earlier ones in place |
| ArenaSpec.InsertFreeSorted | src/fixed_memory_resource.h:25-27 | insertion keeps ascending size; the new entry goes after equal sizes, so the oldest equal entry stays first |
| ArenaSpec.InsertFreeContents | src/fixed_memory_resource.cpp:100 | insertion adds exactly the one entry, as a multiset, and erasing it restores the old table |
| ArenaSpec.RemoveAt | src/fixed_memory_resource.cpp:127 | `erase` of one free entry: one entry shorter, the entries before it kept in place and the ones after it shifted down by one |
| ArenaSpec.InsertFree | src/fixed_memory_resource.cpp:100 | `free_blocks_.insert`: one entry longer and holding the new entry (its position and the rest of the table are stated by InsertFreeIndex, InsertFreeSorted and InsertFreeContents) |
| ArenaSpec.FreshAllocate | tests/test_lab05.cpp:36-41 | on a fresh arena a request that fits gets offset 0, one occupied region, cursor = bytes; a larger one fails with OutOfMemory and changes nothing |
| ArenaSpec.AllocateCarves | src/fixed_memory_resource.cpp:69-85 | with no fitting free entry and room left, the result is the aligned cursor, the cursor moves to aligned + bytes and stays within capacity |
| ArenaSpec.AllocateOutOfMemory | src/fixed_memory_resource.cpp:57-74 | allocation fails exactly when no free entry fits and the aligned request passes the capacity; a failure changes nothing |
| ArenaSpec.AllocateReuses | src/fixed_memory_resource.cpp:57-61 | reuse returns the first fitting entry in (size, insertion) order, removes exactly it, records the requested size and keeps the cursor |
| ArenaSpec.AllocatePreservesValid | src/fixed_memory_resource.cpp:55-86 | allocation keeps the cursor within capacity and the free table sorted, and never moves the cursor back |
| ArenaSpec.AllocateTidy | src/fixed_memory_resource.cpp:55-86 | in a tidy state a positive-size allocation hands out an aligned offset not yet occupied, adds exactly that key and stays tidy |
| ArenaSpec.ReleaseUnknown | src/fixed_memory_resource.cpp:91-94 | releasing an unknown offset fails with UnknownBlock and changes nothing |
| ArenaSpec.ReleaseKnown | src/fixed_memory_resource.cpp:96-100 | a release drops the key, adds (bytes, addr) to the free table: occupied count -1, free count +1, cursor kept |
| ArenaSpec.ReleaseTidy | src/fixed_memory_resource.cpp:89-101 | releases keep a tidy state tidy |
| ArenaSpec.Allocate | src/fixed_memory_resource.cpp:55-86 | `do_allocate` on the abstract state: capacity kept and cursor never lower; a failure is OutOfMemory with the state unchanged; a success returns an aligned offset and records the requested size at that key, every other key kept |
| ArenaSpec.Release | src/fixed_memory_resource.cpp:89-101 | `do_deallocate` on the abstract state: it passes exactly when the offset is occupied; otherwise UnknownBlock with the state unchanged; capacity and cursor kept, and exactly that key leaves the occupied table |
| ArenaSpec.AllocateReleaseAllocate | tests/test_lab05.cpp:52-65 | allocate, release, allocate again of the same size: same offset and exactly the same state, cursor included |
| ArenaSpec.CountFitsNone | src/fixed_memory_resource.cpp:119-134 | no free entry fits exactly when the count of fitting entries is zero |
| ArenaSpec.CountFitsRemoveAt | src/fixed_memory_resource.cpp:127 | erasing a fitting entry lowers the count of fitting entries by one |
| ArenaSpec.ReleaseAddsFit | src/fixed_memory_resource.cpp:89-101 | releasing an aligned region large enough for a request adds one entry that serves it |
| ArenaSpec.AllocateWithFitReuses | src/fixed_memory_resource.cpp:57-61 | while a fitting entry exists allocation succeeds, keeps the cursor and uses up one fitting entry |
| ArenaSpec.ReleaseFirst | src/queue.h:200-224 | releasing the first node region of a list: the key leaves, one fitting entry more, the rest stay occupied |
| ArenaSpec.ReleaseAllOccupied | src/queue.h:267-271 | releasing distinct occupied regions in turn removes exactly those keys and keeps capacity and cursor |
| ArenaSpec.ReleaseAllFits | src/queue.h:267-271 | each released node region adds one free entry that a node request can reuse |
| ArenaSpec.ReleaseAllEffect | src/queue.h:267-271 | both effects of releasing a whole chain of node regions together |
| ArenaSpec.ReleaseAll | src/queue.h:267-271 | the releases `clear()` makes, one per node in FIFO order, keep the capacity and the cursor |
| ArenaSpec.AllocateManyLast | src/queue.h:112-114 | a run of n + 1 allocations is a run of n followed by one more |
| ArenaSpec.AllocateMany | src/queue.h:112-114 | the node requests of the copy loop, one per element, keep the capacity and never lower the cursor |
| ArenaSpec.AllocateManyGrows | src/fixed_memory_resource.cpp:55-86 | a run of allocations keeps every occupied offset occupied, keeps capacity and validity and never moves the cursor back |
| ArenaSpec.AllocateManyKeepsCursor | src/fixed_memory_resource.cpp:57-61 | as many allocations as there are fitting entries never move the cursor |
| ArenaSpec.ReuseCycleKeepsCursor | tests/test_lab05.cpp:355-380 | releasing n node regions and allocating n nodes leaves the cursor where it was |
| MemoryResource.FixedMemoryResource.constructor | src/fixed_memory_resource.cpp:6-12 | a new arena owns its block, has capacity `size`, cursor 0 and empty tables |
| MemoryResource.FixedMemoryResource.Default | src/fixed_memory_resource.h:32 | the default arena has capacity 1024 * 1024, cursor 0 and empty tables |
| MemoryResource.FixedMemoryResource.Move | src/fixed_memory_resource.cpp:20-31 | the new arena takes block, capacity, cursor and both tables; the source is left with no block, capacity 0, cursor 0, empty tables |
| MemoryResource.FixedMemoryResource.MoveAssign | src/fixed_memory_resource.cpp:34-52 | self-assignment changes nothing; otherwise own block released, everything taken from the source, the source reset |
| MemoryResource.FixedMemoryResource.Cleanup | src/fixed_memory_resource.cpp:137-148 | the block is released only if still owned; the reported leak count is the number of occupied regions; a second call changes nothing |
| MemoryResource.FixedMemoryResource.AllocatedCount | src/fixed_memory_resource.h:49 | the number of occupied regions |
| MemoryResource.FixedMemoryResource.FreeCount | src/fixed_memory_resource.h:50 | the number of free entries, equal sizes counted separately |
| MemoryResource.FixedMemoryResource.CurrentOffset | src/fixed_memory_resource.h:51 | the cursor |
| MemoryResource.FixedMemoryResource.IsEqual | src/fixed_memory_resource.cpp:104-107 | two arenas are equal exactly when they are the same object |
| MemoryResource.FixedMemoryResource.FindFreeBlock | src/fixed_memory_resource.cpp:119-134 | the loop from `lower_bound` returns and erases exactly the entry `FirstFit` picks, or leaves the table as it was |
| MemoryResource.FixedMemoryResource.Allocate | src/fixed_memory_resource.cpp:55-86 | new state and result are those of `ArenaSpec.Allocate`; the state stays valid |
| MemoryResource.FixedMemoryResource.Deallocate | src/fixed_memory_resource.cpp:89-101 | new state and outcome are those of `ArenaSpec.Release`; the alignment is ignored |
| LinkedQueue.ChainPush | src/queue.h:173-181 | linking a node at a new offset behind the tail yields the chain of contents + [v] |
| LinkedQueue.ChainPop | src/queue.h:205-214 | unlinking the head yields the chain of contents[1..]; the tail becomes absent exactly when the chain becomes empty |
| LinkedQueue.StoreChain | src/queue.h:54-58 | overwriting one node's payload changes exactly that element of the chain |
| LinkedQueue.Queue.constructor | src/queue.h:98-99 | an empty queue on the given arena |
| LinkedQueue.Queue.Push | src/queue.h:166-197 | one arena allocation of one node; on OutOfMemory the error is passed on and the queue is unchanged; otherwise contents + [v] in a newly occupied region |
| LinkedQueue.Queue.LinkTail | src/queue.h:173-181 | the list half of push: contents + [v], addrs + [a] |
| LinkedQueue.Queue.AllocateNode | src/queue.h:168 | the node request changes the arena as `ArenaSpec.Allocate` says; success gives a fresh aligned offset |
| LinkedQueue.Queue.Pop | src/queue.h:200-224 | an empty queue fails with EmptyQueue and nothing changes; otherwise contents[1..], and exactly the old head's region is released |
| LinkedQueue.Queue.UnlinkHead | src/queue.h:205-214 | the list half of pop: returns the head's offset and drops the first element |
| LinkedQueue.Queue.ReleaseNode | src/queue.h:217-221 | the node's region goes back as `ArenaSpec.Release` says and only that key stops being occupied |
| LinkedQueue.Queue.Front | src/queue.h:227-239 | EmptyQueue on an empty queue, else the first element |
| LinkedQueue.Queue.Back | src/queue.h:242-254 | EmptyQueue on an empty queue, else the last element |
| LinkedQueue.Queue.Empty | src/queue.h:257-259 | true exactly when there are no elements |
| LinkedQueue.Queue.Size | src/queue.h:262-264 | the number of elements |
| LinkedQueue.Queue.Clear | src/queue.h:267-271 | contents empty; the arena ends as if every node region were released in FIFO order, and exactly those stop being occupied |
| LinkedQueue.Queue.PushCopyOf | src/queue.h:112-114 | one round of the copy loop: pushes the element of the source's current node and returns that node's successor; the arena moves from `AllocateMany(s0, i)` to `AllocateMany(s0, i + 1)`, or is unchanged on OutOfMemory |
| LinkedQueue.Queue.PushAll | src/queue.h:112-114 | copying the source chain appends all of its elements in order and the arena makes one node allocation per element (`AllocateMany`); on OutOfMemory a proper prefix is copied and the arena holds exactly those allocations |
| LinkedQueue.Queue.Copy | src/queue.h:108-115 | a new queue on the same arena with the same elements and no node in common, the arena advanced by one node allocation per element (a proper prefix on OutOfMemory); every region occupied before stays occupied, capacity kept, cursor never back |
| LinkedQueue.Queue.CopyAssign | src/queue.h:118-129 | self-assignment changes nothing; otherwise own nodes released (`ReleaseAll`), then one node allocation per element of the source (a proper prefix on OutOfMemory); regions other than the old nodes stay occupied |
| LinkedQueue.Queue.Move | src/queue.h:133-143 | the new queue takes the source's nodes and arena without allocating; the source is left empty |
| LinkedQueue.Queue.MoveAssignAsWritten | src/queue.h:146-163 | as written: own nodes released into the own arena (`ReleaseAll`), then the source's nodes taken while keeping the own arena; across arenas with a non-empty source the queue is no longer valid |
| LinkedQueue.Queue.TakeChain | src/queue.h:152-160 | this queue gets the source's chain, the source is left empty |
| LinkedQueue.Queue.MoveAssign | src/queue.h:146-163 | corrected: both queues stay valid; on one arena own nodes released and the source's taken over; across arenas own nodes released, one allocation per element in the own arena, the source's nodes released into its arena (on OutOfMemory a prefix, the source and its arena untouched) |
| LinkedQueue.Queue.StoreAt | src/queue.h:54-58 | writing through an element reference changes only that element |
| LinkedQueue.Queue.Begin | src/queue.h:274-276 | an iterator at position 0 |
| LinkedQueue.Queue.End | src/queue.h:279-281 | an iterator at position size (no node) |
| LinkedQueue.Iterator.constructor | src/queue.h:51 | an iterator at the given node |
| LinkedQueue.Iterator.Deref | src/queue.h:54-59 | the element at the position, or EndCursorDereference at the end |
| LinkedQueue.Iterator.Arrow | src/queue.h:62-67 | where the element at the position is stored, or EndCursorDereference at the end |
| LinkedQueue.Iterator.Store | src/queue.h:54-59 | `*it = v` replaces exactly the element at the position; at the end it fails and nothing changes |
| LinkedQueue.Iterator.Increment | src/queue.h:71-76 | steps one position on; at the end it stays at the end |
| LinkedQueue.Iterator.PostIncrement | src/queue.h:80-84 | returns an iterator at the old position and steps this one on |
| LinkedQueue.Iterator.Equals | src/queue.h:87-89 | on one queue, equal exactly when at the same position; on two queues of one arena, which share no node, equal exactly when both are at the end |
| LinkedQueue.Iterator.NotEquals | src/queue.h:91-93 | on one queue, different exactly when at different positions; on two queues of one arena, different exactly when either is before its end |
| LinkedQueue.Collect | tests/test_lab05.cpp:225-241 | a loop from begin() with prefix ++ until end() visits exactly the elements in FIFO order |
| LinkedQueue.VisitOne | src/queue.h:54-76 | one `*it` then `++it` appends the element at the position and steps on |
| QueueScenarios.ArenaAllocateRelease | tests/test_lab05.cpp:36-50 | one allocation gives occupied count 1; its release gives occupied 0 and free 1 |
| QueueScenarios.ArenaMemoryReuse | tests/test_lab05.cpp:52-65 | the second allocation after a release returns the same address, with the same cursor |
| QueueScenarios.ArenaOutOfMemory | tests/test_lab05.cpp:67-71 | 5000 bytes from a 4096-byte arena fail with OutOfMemory and change nothing |
| QueueScenarios.ArenaUnknownRelease | tests/test_lab05.cpp:73-77 | releasing a foreign address fails with UnknownBlock |
| QueueScenarios.ArenaMoveKeepsCount | tests/test_lab05.cpp:79-89 | after move construction the new arena counts the region and can release it; the source counts none |
| QueueScenarios.CyclicPushPop | tests/test_lab05.cpp:355-380 | 5 pushes, 3 pops, 3 pushes: the cursor equals its value after the first 5 pushes, and the queue holds 3, 4, 10, 11, 12 |
| QueueScenarios.PushFirstBatch | tests/test_lab05.cpp:360-364 | five pushes on a fresh arena carve five 16-byte nodes, cursor 80 |
| QueueScenarios.PopThree | tests/test_lab05.cpp:367-369 | three pops leave three reusable node regions and the cursor unchanged |
| QueueScenarios.PushReuse | tests/test_lab05.cpp:372-379 | three pushes all reuse released regions, so the cursor stays at 80 |
| QueueScenarios.PushIntoFreed | src/fixed_memory_resource.cpp:57-61 | a push while a fitting region is free succeeds without moving the cursor |
| QueueScenarios.PushCarving | src/fixed_memory_resource.cpp:69-85 | a push with no free entry and room at an aligned cursor carves the node there: cursor + 16 |
| QueueScenarios.PushAllCarving | src/queue.h:166-182 | pushing a sequence of values carved in turn appends exactly those values, cursor + 16 per value |
| QueueScenarios.ThreeElements | tests/test_lab05.cpp:259-261 | a fresh queue holding three pushed values in order |
| QueueScenarios.DoubleAll | tests/test_lab05.cpp:263-265 | writing `*it * 2` through every iterator doubles each element and keeps every node |
| QueueScenarios.DoubleOne | src/queue.h:54-76 | one `*it *= 2; ++it` doubles exactly the element at the position |
| QueueScenarios.FrontsWhilePopping | src/queue.h:200-239 | front, pop, front, pop, front read the first three elements in order |
| QueueScenarios.IteratorModification | tests/test_lab05.cpp:258-272 | after doubling 10, 20, 30 through the iterator, the fronts while popping are 20, 40, 60 |
| QueueScenarios.CopyBeside | src/queue.h:108-115 | copying a queue leaves every other valid queue on the same arena valid and unchanged |
| QueueScenarios.PopBeside | src/queue.h:200-224 | popping a queue leaves another queue on the same arena with no shared node valid |
| LinkedQueue.Queue.PushAlongside | src/queue.h:166-182 | push while another queue is in view: that queue stays valid and shares no node; success gives contents + [v] and the arena as ArenaSpec.Allocate; failure is OutOfMemory with both queues and the arena unchanged and the next node request failing |
| QueueScenarios.CopyIsIndependent | tests/test_lab05.cpp:170-184 | copying a three-element queue on a 4096-byte arena succeeds; popping the copy then leaves it holding 20, 30 while the original still holds 10, 20, 30 and stays valid |
| QueueScenarios.CopyAssignment | tests/test_lab05.cpp:200-209 | copy-assigning a two-element queue to an empty queue on the same 4096-byte arena succeeds: both hold 10, 20, are valid and share no node |
| QueueScenarios.MoveAcrossArenasAsWritten | src/queue.h:146-163 | the as-written move assignment across arenas leaves the destination holding a foreign node, not a valid queue of its arena, and the release of that node its `pop` would make is rejected by its own arena with UnknownBlock |
| QueueScenarios.MoveAcrossArenas | src/queue.h:146-163 | the corrected move assignment across arenas succeeds on a fresh destination arena, keeps both queues valid and leaves the element in the destination and the source empty |

## Left out

- `print_stats` and the warning text of `cleanup` are console output. Only the counts they read are modelled (`AllocatedCount`, `FreeCount`, `CurrentOffset`, the `leaked` result of `Cleanup`).
- The raw pool and pointer arithmetic are not modelled. Regions are offsets and node storage is a table keyed by offset. So `::operator new`/`::operator delete`, casts between pointers and integers, and placement construction and destruction through `polymorphic_allocator` do not appear. Destroying a node's payload is not modelled.
- The alignment of the pool block itself: an offset's alignment is taken as the alignment of the address it stands for, so the pool is assumed to start on a boundary at least as strict as any requested alignment. The program makes the same assumption: `find_free_block` tests the address as a `uintptr_t`, while `do_allocate` rounds up the offset.
- The virtual dispatch of `std::pmr::memory_resource` is collapsed to direct methods on one class. `allocate(n)`'s default alignment is taken as 16, `alignof(std::max_align_t)` on a 64-bit target.
- `Queue`'s default argument `get_default_resource()` is a foreign global resource. Every queue is given its arena.
- The node layout is not computed: `sizeof(Node)` and `alignof(Node)` are the parameters `nodeSize` and `nodeAlign`. The scenarios use 16 and 8, an `int` and its `next` link on a 64-bit target.
- `size_t` overflow in `aligned + bytes` is not modelled, because integers are unbounded. Alignments are required to be positive.
- Move construction and move assignment of `std::map`/`std::multimap` are modelled as leaving the source's tables empty, which the standard only leaves unspecified.
- `front()` and `back()` return mutable references. Only reading through them is modelled. Writing through an element reference is modelled once, through the iterator (`Iterator.Store`).
- A program that throws `bad_alloc` out of the copy constructor never runs the destructor of the half-built queue, so its nodes leak. `Queue.Copy` returns that partial queue instead.
- The queue destructor is represented by `Clear`, which it calls. The arena destructor is represented by `Cleanup`.
- Allocations of 0 bytes can hand out an offset that is already occupied or free. `Tidy` is therefore proved preserved only for positive sizes, and every node has a positive size.
- LinkedQueue.Queue.constructor and LinkedQueue.Queue.Valid require the arena to be tidy. So queues are modelled only on arenas that have never served a 0-byte request whose region is still in use. The program also builds and pushes onto a queue on such an arena.
- LinkedQueue.Queue.MoveAssignAsWritten and LinkedQueue.Queue.MoveAssign require both queues to have the same node layout. Both are `Queue<T>` of the same `T`, so the program always meets this.
- ArenaSpec.AllocateReleaseAllocate: stated only when no free entry fits the first request, as in the test on a fresh arena. With an older free entry of the same size, the second allocation takes that older entry, because equal sizes are reused oldest first.
- The test's `Person` type (floating point) and the iterator-category trait check are not modelled. Queues are generic in `T`.
- No tombstone or size-mismatch policy on release exists in the program, so none is modelled.
- Concurrency: the program has none.
- Offsets of different arenas collide: every arena's offsets start at 0, whereas the program's addresses into two blocks are distinct. The ghost `owner` of a queue stands for the block its nodes lie in.
  - `Iterator.Equals` and `Iterator.NotEquals` are stated for iterators of one queue and of two queues on one arena. For iterators of queues on two arenas, the model can call equal two `Node*` the program keeps apart.
  - `ArenaSpec.Release` given another arena's offset accepts it when its own table happens to hold the same offset. The program throws `invalid_argument` there.

## Findings

| source | as written | input that shows it | evidently intended | confidence | as-written member | corrected member |
|---|---|---|---|---|---|---|
| src/queue.h:146-163 | move assignment keeps the destination's own allocator but takes over the source's nodes | destination on arena A, source on arena B holding one element; after `dest = std::move(src)`, `dest.pop()` (or `dest`'s destructor) deallocates B's node into A, which rejects it with `invalid_argument` | the destination keeps drawing from its own arena: take the nodes over only when both queues share one arena, otherwise copy the elements into its own arena and release the source's nodes into theirs | not executed | LinkedQueue.Queue.MoveAssignAsWritten, QueueScenarios.MoveAcrossArenasAsWritten | LinkedQueue.Queue.MoveAssign, QueueScenarios.MoveAcrossArenas |
