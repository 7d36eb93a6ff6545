# RT-Thread 4.0.1 kernel: a verified model

This project models the single-core kernel of RT-Thread 4.0.1 as it stands in
this repository (`rt-thread/src`), and the binary layout compiler
`rt-thread/tools/mkromfs.py`, and proves what they keep over whole runs.

Every region between `rt_hw_interrupt_disable` and `rt_hw_interrupt_enable` is
one atomic step. A blocking call is split into the part up to its suspension
and the part after it has been resumed. A component usually comes in four
layers:

* a state machine on values (`...Spec`): the states and one function a step,
  with the branches, error results and constants of the code;
* theorems about every run of that machine (`...Theory`, `...Runs`,
  `...Promises`, `...Fit`);
* what its callers can rely on, told without the functions of the machine
  (`...Calls`, `...Exact`): for the objects of `ipc.c` a log kept from the calls
  and their answers alone, which after every run agrees with the state and
  decides the next answer; for the allocators, the scheduler and the timers
  exactly what each call changes and when it succeeds;
* a class that does the work as the source does it (headers linked by offset,
  doubly linked rings, ring buffers, a skip list with 32-bit ticks, bitmaps),
  whose methods are proved to take exactly the steps of the machine.

| files | models |
|---|---|
| `Tiling`, `SmallMemSpec`, `SmallMemTheory`, `SmallMemFit`, `SmallMemExact`, `SmallMemHeaders`, `SmallMem` | the small-memory heap of `mem.c`, down to header stores and payload bytes |
| `MemHeapSpec`, `MemHeapTheory`, `MemHeapExact`, `MemHeap` | `memheap.c`: one ring of all items, one ring of the free ones |
| `PagesSpec`, `Pages` | the page-run allocator of `slab.c` |
| `SlabSpec`, `SlabTheory`, `SlabRuns`, `SlabPromises`, `SlabExact`, `SlabAllocator` | the zones of `slab.c` over those pages |
| `RtList` | the circular doubly linked list of `rtservice.h`, which `MemHeap` is built on |
| `OrderedList`, `TimerSpec`, `TimerTheory`, `Timer` | the hard timers of `timer.c` |
| `IpcList`, `Waiters`, `ServiceOrder`, `ServiceRuns` | wait lists, the threads on them, and whom they serve first |
| `SemaphoreSpec`, `SemaphoreCalls`, `Semaphore` | semaphores, with the timeouts of `timer.c` |
| `MutexSpec`, `MutexCalls`, `Mutex` | the recursive mutex with priority inheritance |
| `EventSpec`, `EventCalls`, `Event` | event sets |
| `MailboxSpec`, `MailboxCalls`, `Mailbox` | ring mailboxes |
| `MsgQueueSpec`, `MsgQueueCalls`, `MsgQueue` | message queues |
| `Bitmap`, `SchedulerSpec`, `SchedulerTheory`, `SchedulerCalls`, `Scheduler` | the ready bitmap, `__rt_ffs`, the scheduler, thread states |
| `Clock` | `rt_tick_increase`: time slices, then the timers |
| `RomFs` | `mkromfs.py`: a directory tree becomes an addressed image |
| `Machine` | `RT_ALIGN`, 32-bit words, an optional value |

`dafny verify dfyconfig.toml` checks everything.

## Promises that the code does not keep

Where the code does less than its comments or a reader would expect, the model
follows the code; a lemma names a case in which the promise fails and another
says exactly when it holds.

* `mem.c`: `rt_malloc` may refuse a request although a free block has room: a
  block at or above `mem_size_aligned - size` is never tried
  (`SmallMemFit.WholeHeapRefused`), nor is one below `lfree`, and the split in
  `rt_realloc` leaves such blocks behind because it does not lower `lfree`
  (`SmallMemFit.StaleLfreeRefuses`). Exactly when, in every reachable state:
  `SmallMemFit.RefusesIff`; exactly when a split leaves `lfree` too high:
  `SmallMemFit.ShrinkLowestIff`. For the three largest 32-bit requests
  `RT_ALIGN` wraps and too small a block is handed out (`SmallMemFit.ShortIff`).
* `memheap.c`: a request for all that is available is refused although one block
  has it (`MemHeapTheory.WholePoolRefused`, exactly when:
  `MemHeapTheory.RefusedWithRoomIff`). `RT_ALIGN` wraps as above
  (`MemHeapTheory.ShortIff`). In `rt_memheap_realloc` the sum
  `newsize + RT_MEMHEAP_MINIALLOC` (line 350) may wrap, and a block is grown into
  a neighbour that has no room (`MemHeapTheory.GrowthMisjudged`, exactly when:
  `MemHeapTheory.MisjudgedIff`).
* `slab.c` says that all power-of-two sized allocations are power-of-two aligned
  (lines 152-153); of a size up to one page that holds in every heap within the
  32-bit range, of a larger one in some it does not
  (`SlabPromises.PowerAlignedIff`). It also says that `malloc(0)` returns a
  non-null pointer (line 154); the code returns `RT_NULL` (line 486) and changes
  nothing. Exactly when a request fails, of whatever size:
  `SlabPromises.FailsIff`.
* `timer.c`: a one-shot timer that its own timeout function starts again stays
  linked with its flag cleared, cannot be stopped and fires once more
  (`TimerTheory.SelfRestartCannotBeStopped`, exactly when:
  `TimerTheory.FireFlagsIff`).
* `ipc.c`: a mutex with `RT_IPC_FLAG_FIFO` does not re-raise its new owner, so a
  waiter may be more urgent than the owner (`MutexTheory.FifoInverts`). Exactly
  when on a run, under either flag: `MutexTheory.RunUrgentIff`, by
  `MutexTheory.HandOffUrgentIff` and `MutexTheory.KeepsUrgent`.

## Model

| member | source | states |
|---|---|---|
| Machine.AlignUp | rt-thread/include/rtdef.h:287 | `RT_ALIGN(n, 4)` in 32-bit arithmetic: a multiple of four, the least one at or above n unless the addition wraps |
| Tiling.Canonical | rt-thread/src/mem.c:156-194 | a tiling without free neighbours is determined by its used blocks |
| Tiling.CoalesceSettles | rt-thread/src/mem.c:156-194 | `plug_holes` leaves no two free neighbours |
| Tiling.CoalesceTiles | rt-thread/src/mem.c:156-194 | `plug_holes` keeps the blocks a gapless tiling |
| SmallMem.SmallHeap.Init | rt-thread/src/mem.c:204-257 | succeeds exactly when two headers fit the aligned range; then the heap is one free block ended by a sentinel, else nothing changes |
| SmallMem.SmallHeap.PlugForward | rt-thread/src/mem.c:165-179 | joins a block with a free right neighbour, moves `lfree` with it, touches no live payload |
| SmallMem.SmallHeap.PlugBackward | rt-thread/src/mem.c:181-193 | the same on the left |
| SmallMem.SmallHeap.PlugHoles | rt-thread/src/mem.c:156-194 | the linked headers afterwards spell out the coalesced tiling |
| SmallMem.SmallHeap.SkipUsed | rt-thread/src/mem.c:380-387 | the loop leaves `lfree` on the next free block, or on the sentinel |
| SmallMem.SmallHeap.TakeBlock | rt-thread/src/mem.c:316-376 | splits when a header and MIN_SIZE bytes fit behind, else hands out whole; `used_mem` and `max_mem` follow |
| SmallMem.SmallHeap.Search | rt-thread/src/mem.c:305-318 | stops at the first free block from `lfree` on, below `mem_size_aligned - size`, with room; or at none |
| SmallMem.SmallHeap.Malloc | rt-thread/src/mem.c:272-410 | takes the step of the state machine; every payload live before keeps its bytes |
| SmallMem.SmallHeap.Free | rt-thread/src/mem.c:546-609 | takes the step of the state machine for a live pointer, `RT_NULL` or one outside the heap; every other payload live before keeps its bytes |
| SmallMem.SmallHeap.ShrinkTo | rt-thread/src/mem.c:471-498 | the split branch of `rt_realloc`: new layout, `lfree` not lowered, kept payload unchanged |
| SmallMem.SmallHeap.MoveTo | rt-thread/src/mem.c:499-510 | allocate, copy min(old, new) bytes, free; on failure nothing changes |
| SmallMem.SmallHeap.Realloc | rt-thread/src/mem.c:421-510 | all branches, with the result of the state machine (when it must succeed: SmallMemFit.ReallocRefusesIff); on success the first min(old, new) bytes arrive, and the payload of every other block that was live before the call is unchanged |
| SmallMemTheory.StepInv | rt-thread/src/mem.c:272-609 | each call keeps the whole invariant |
| SmallMemTheory.RunInv | rt-thread/src/mem.c:156-609 | in every reachable state the `next` chain tiles the heap with aligned non-empty blocks, no two neighbours are free, `lfree` is a free block or the sentinel, `used_mem` is the sum of the used extents and at most `max_mem` |
| SmallMemHeaders.ChainMerge | rt-thread/src/mem.c:165-193 | two stores join two blocks in the linked headers, with every `prev` right but the sentinel's |
| SmallMemHeaders.ChainSplit | rt-thread/src/mem.c:329-348 | the stores of a split link the new header in |
| SmallMemTheory.MallocResult | rt-thread/src/mem.c:272-410 | a successful `rt_malloc` adds exactly one live block, aligned, apart from all others and large enough |
| SmallMemTheory.FreeLive | rt-thread/src/mem.c:590-607 | `rt_free` removes exactly the released block from the live ones and its extent from `used_mem` |
| SmallMemTheory.EmptyRunIsFresh | rt-thread/src/mem.c:590-607 | when a run leaves nothing live the heap is the initial one: one free block, `lfree` 0, `used_mem` 0 |
| SmallMemTheory.LayoutDependsOnLiveOnly | rt-thread/src/mem.c:156-609 | runs that end with the same live blocks end with the same layout and the same `used_mem` |
| SmallMemTheory.MallocFreeRoundTrip | rt-thread/src/mem.c:272-609 | `rt_malloc` then `rt_free` of its result restores layout, `lfree` and `used_mem` |
| SmallMemTheory.ReallocResult | rt-thread/src/mem.c:421-510 | `rt_realloc` keeps every other live block live where and as it is and makes nothing live but its result, which has room for the aligned request; a failed call changes nothing |
| SmallMemFit.RunLowest | rt-thread/src/mem.c:380-387 | on runs in which `rt_realloc` never splits, `lfree` is the lowest free block |
| SmallMemFit.ShrinkLowestIff | rt-thread/src/mem.c:478-493 | in every state: a realloc split leaves `lfree` the lowest free block exactly if it was and lies below the shrunk block or on the free block behind it |
| SmallMemFit.SearchExact | rt-thread/src/mem.c:305-318 | in every state `rt_malloc` takes the lowest block with room between `lfree` and `mem_size_aligned - size`, and fails exactly when there is none |
| SmallMemFit.FirstFitExact | rt-thread/src/mem.c:305-318 | with `lfree` lowest that is the lowest block with room below `mem_size_aligned - size` |
| SmallMemFit.RefusesIff | rt-thread/src/mem.c:305-311 | in every state with some block large enough, `rt_malloc` still fails exactly when every such block lies below `lfree` or is the last one and fits exactly |
| SmallMemFit.RefusesLowestIff | rt-thread/src/mem.c:305-311 | with `lfree` lowest only the exactly fitting last block is passed over |
| SmallMemFit.WholeHeapRefused | rt-thread/src/mem.c:305-311 | a fresh heap refuses a request for its whole payload |
| SmallMemFit.StaleLfreeRefuses | rt-thread/src/mem.c:478-493 | a run after which `rt_malloc(12)` fails with 36 free bytes below `lfree` |
| SmallMemFit.ShortIff | rt-thread/src/mem.c:289-300 | a block smaller than the request is handed out exactly when `RT_ALIGN` wraps |
| SmallMemFit.ReallocRefusesIff | rt-thread/src/mem.c:421-510 | `rt_realloc` to a non-zero size answers `RT_NULL` exactly when the aligned size exceeds the heap, or the data must move (the pointer is `RT_NULL`, or the size differs and nothing worth a block would be left over) and every block that would serve `rt_malloc` lies below `lfree` or too high; where the data need not move it answers the pointer it was given |
| SmallMemExact.MallocExact | rt-thread/src/mem.c:305-404 | `rt_malloc` serves from the lowest serving block, cut to the request when a block is left over and whole otherwise, every other block as it was; `lfree` moves, to the next free block above, only when it was taken; `max_mem` is the larger of itself and `used_mem` |
| SmallMemExact.FreeExact | rt-thread/src/mem.c:590-607 | after `rt_free` `lfree` is the free block that covers the lower of the released block and the old `lfree`; `max_mem` stays |
| SmallMemExact.ReallocInPlace | rt-thread/src/mem.c:459-498 | in place `rt_realloc` changes nothing for the size it has, else leaves a block of exactly the aligned size and `lfree` on the free block that covers what it was |
| SmallMemExact.ReallocMoves | rt-thread/src/mem.c:499-510 | where the data must move, `rt_realloc` is `rt_malloc` of the aligned size followed, if that succeeds, by `rt_free` of the old block |
| RtList.RingInsert | rt-thread/include/rtservice.h:58-80 | the four stores of an insertion put the node at its place in the ring |
| RtList.RingRemove | rt-thread/include/rtservice.h:86-92 | the stores of a removal close the ring over the node and leave it linked to itself |
| RtList.List.InsertAfter | rt-thread/include/rtservice.h:58-65 | the node follows l in ring order, nothing else moves |
| RtList.List.InsertBefore | rt-thread/include/rtservice.h:73-80 | the node precedes l; in front of the head means at the end |
| RtList.List.RemoveNode | rt-thread/include/rtservice.h:86-92 | the node leaves the ring; removing it again changes nothing |
| RtList.List.IsEmpty | rt-thread/include/rtservice.h:98-101 | true exactly for the head alone |
| RtList.List.Length | rt-thread/include/rtservice.h:107-118 | the walk counts the nodes behind the head |
| MemHeap.MemHeap.constructor | rt-thread/src/memheap.c:50-121 | one free item, the tail item, and the free list with it |
| MemHeap.MemHeap.Search | rt-thread/src/memheap.c:170-180 | the first item of the free list that is large enough, or none |
| MemHeap.MemHeap.Take | rt-thread/src/memheap.c:183-258 | splits or hands out whole, in both rings, with `available_size` and `max_used_size` |
| MemHeap.MemHeap.Alloc | rt-thread/src/memheap.c:138-281 | takes the step of the state machine, both rings following |
| MemHeap.MemHeap.Free | rt-thread/src/memheap.c:495-595 | takes the step of the state machine, both rings following |
| MemHeap.MemHeap.FinishFree | rt-thread/src/memheap.c:540-591 | merges left, then right, and inserts into the free list unless the left neighbour already is there |
| MemHeap.MemHeap.GrowInPlace | rt-thread/src/memheap.c:328-402 | the item takes what it needs of its free right neighbour; the rest is a free item |
| MemHeap.MemHeap.ShrinkInPlace | rt-thread/src/memheap.c:432-491 | the tail becomes a free item, joined with a free right neighbour |
| MemHeap.MemHeap.Realloc | rt-thread/src/memheap.c:284-492 | all branches: allocate, free, grow by the test as it is written, move, leave, shrink |
| MemHeapTheory.StepInv | rt-thread/src/memheap.c:138-595 | each call keeps the whole invariant |
| MemHeapTheory.RunInv | rt-thread/src/memheap.c:138-595 | in every reachable state the address list tiles the pool, the free list is exactly the unused items once each, no two neighbours are free, `available_size` is the sum of free payloads, `max_used_size` bounds what is in use |
| MemHeapTheory.EmptyRunIsFresh | rt-thread/src/memheap.c:495-595 | a run that leaves nothing allocated leaves the initial heap |
| MemHeapTheory.LayoutDependsOnLiveOnly | rt-thread/src/memheap.c:138-595 | runs with the same live items end with the same layout, amount available and set of free items |
| MemHeapTheory.AllocRefusesIff | rt-thread/src/memheap.c:155-183 | an allocation fails exactly when no free item has room or the request is not below `available_size` |
| MemHeapTheory.RefusedWithRoomIff | rt-thread/src/memheap.c:155 | with room in some item, exactly the request equal to `available_size` fails |
| MemHeapTheory.WholePoolRefused | rt-thread/src/memheap.c:155 | a fresh heap refuses its whole payload |
| MemHeapTheory.AllocFreeRoundTrip | rt-thread/src/memheap.c:138-595 | allocation then release restores layout and `available_size`; the item moves to the front of the free list |
| MemHeapTheory.AllocResult | rt-thread/src/memheap.c:138-281 | the result is a used item, large enough and apart from every live one, all of which stay |
| MemHeapTheory.ResizeInPlace | rt-thread/src/memheap.c:315-491 | a realloc in place keeps the item's address, has room, and leaves every other live item |
| MemHeapTheory.ResizeResult | rt-thread/src/memheap.c:315-491 | growing, moving, leaving or shrinking keeps every other live item live where and as it is, makes nothing live but the result, which has room; a failure changes nothing |
| MemHeapTheory.ReallocResult | rt-thread/src/memheap.c:284-492 | so does the whole of `rt_memheap_realloc`, with `RT_NULL` and size 0 |
| MemHeapTheory.MisjudgedIff | rt-thread/src/memheap.c:346-350 | the growth test accepts a neighbour without room exactly when the neighbour is free, `newsize + RT_MEMHEAP_MINIALLOC` wraps, and both payloads together exceed what is left of it |
| MemHeapTheory.GrowthMisjudged | rt-thread/src/memheap.c:346-350 | a reachable heap in which it does |
| MemHeapTheory.ShortIff | rt-thread/src/memheap.c:147-150 | an item smaller than the request is handed out exactly when `RT_ALIGN` wraps |
| MemHeapExact.AllocExact | rt-thread/src/memheap.c:170-258 | an allocation serves from the first item of the free list that has room, cut to the request when the rest makes an item; the rest goes to the front of the free list, the other free items keep their order; `max_used_size` follows |
| MemHeapExact.FreeExact | rt-thread/src/memheap.c:540-591 | the released item is in front of the free list unless it was joined to a free left neighbour; the others keep their order; `max_used_size` stays |
| MemHeapExact.ReallocRefusesIff | rt-thread/src/memheap.c:284-492 | `rt_memheap_realloc` to a non-zero size fails exactly when the data must move and no item can be allocated; where it need not move it answers the pointer it was given |
| MemHeapExact.ReallocInPlace | rt-thread/src/memheap.c:328-491 | in place an item with room and nothing worth giving back is left alone; else it has exactly the aligned size afterwards and the rest is in front of the free list |
| MemHeapExact.ReallocMoves | rt-thread/src/memheap.c:405-418 | where the data must move the call is an allocation followed, if that succeeds, by the release of the old item |
| PagesTheory.AllocExact | rt-thread/src/slab.c:236-270 | an allocation takes n consecutive free pages and no others |
| PagesTheory.AllocFailsIff | rt-thread/src/slab.c:236-270 | it fails exactly when no n consecutive pages are free, and otherwise takes the lowest such place |
| PagesTheory.ReleaseExact | rt-thread/src/slab.c:272-322 | a release adds exactly the n pages and keeps the list ascending and fully coalesced |
| PagesTheory.Canonical | rt-thread/src/slab.c:272-322 | the list is determined by the set of free pages |
| PagesTheory.AllocReleaseRoundTrip | rt-thread/src/slab.c:236-322 | a successful allocation followed by the matching release restores the identical list |
| PagesTheory.ReleasesCommute | rt-thread/src/slab.c:272-322 | the order of two releases does not matter |
| PagesTheory.RunInv | rt-thread/src/slab.c:236-322 | in every reachable state the list is strictly ascending, disjoint, coalesced, and holds exactly the pages not handed out; live runs are disjoint |
| PagesTheory.AllReturned | rt-thread/src/slab.c:236-322 | when everything is given back the list is the initial run |
| Pages.PageAllocator.constructor | rt-thread/src/slab.c:327-335 | one run |
| Pages.PageAllocator.Alloc | rt-thread/src/slab.c:236-270 | the walk and its stores through `*prev` take the step of the model on the linked heads |
| Pages.PageAllocator.Free | rt-thread/src/slab.c:272-322 | the walk with its four insertion cases takes the step of the model on the linked heads |
| SlabClasses.ClassFits | rt-thread/src/slab.c:401-459 | `zoneindex` gives a class below NZONES whose chunk size is large enough, a multiple of eight, and determined by the class number |
| SlabClasses.ClassTight | rt-thread/src/slab.c:401-459 | no smaller class would do |
| SlabClasses.ClassUnique | rt-thread/src/slab.c:401-459 | the smallest class that fits is the one `zoneindex` gives |
| SlabClasses.ClassStable | rt-thread/src/slab.c:716-718 | a chunk size belongs to its own class |
| SlabTheory.ChunkInside | rt-thread/src/slab.c:628-648 | every chunk lies inside its zone, behind the header |
| SlabTheory.TakeOk | rt-thread/src/slab.c:539-570 | serving from a zone hands out one chunk that was not handed out, and the counters stay right |
| SlabTheory.PutOk | rt-thread/src/slab.c:830-842 | taking a chunk back frees exactly it, and the counters stay right |
| SlabTheory.LookupChunk | rt-thread/src/slab.c:795-828 | from any live chunk `memusage` leads back to its own zone and chunk |
| SlabTheory.LookupLarge | rt-thread/src/slab.c:795-820 | from any large block `memusage` gives its page count |
| SlabTheory.ChunksDisjoint | rt-thread/src/slab.c:534-659 | live chunks do not overlap, within a zone or across zones |
| SlabTheory.FreeSmallInv | rt-thread/src/slab.c:822-903 | releasing a chunk, with its zone going back on its list, to `zone_free` or to the pages, keeps the invariant |
| SlabRuns.MallocStep | rt-thread/src/slab.c:478-667 | `rt_malloc` fails and changes nothing, or makes exactly one new live chunk of the class of the request, or exactly one large block of enough pages |
| SlabRuns.FreeSmallStep | rt-thread/src/slab.c:822-903 | `rt_free` of a chunk ends exactly that chunk's life |
| SlabRuns.RunInv | rt-thread/src/slab.c:478-903 | in every run `z_nfree` counts the chunks never handed out and the free list, a zone is on its list exactly when in service with free chunks, a list keeps at most one wholly free zone, `zone_free` holds at most two, and zones, large blocks, `memusage` and pages agree |
| SlabRuns.InitInv | rt-thread/src/slab.c:344-395 | the initial heap has the invariant; `memusage` is its first pages |
| SlabRuns.ReachableInv | rt-thread/src/slab.c:344-903 | so every state reached from `rt_system_heap_init` has it |
| SlabRuns.MallocFreeRoundTrip | rt-thread/src/slab.c:478-903 | `rt_malloc` then `rt_free` leaves exactly the chunks and blocks that were live before |
| SlabPromises.SmallFailsIff | rt-thread/src/slab.c:534-606 | a small request fails exactly when its class is exhausted, no zone is kept, and no zone's worth of consecutive pages is free |
| SlabPromises.LargeFailsIff | rt-thread/src/slab.c:493-499 | a large one exactly when that many consecutive pages are not free |
| SlabPromises.FailsIff | rt-thread/src/slab.c:478-667 | `rt_malloc` of any size fails exactly for 0, or when its class and the pages have nothing left, or when its pages are not free; for 0 nothing changes |
| SlabPromises.ChunkLargeApart | rt-thread/src/slab.c:493-659 | a chunk and a large block share no byte |
| SlabPromises.LargeApart | rt-thread/src/slab.c:493-512 | large blocks share no byte |
| SlabPromises.PowerAlignedIff | rt-thread/src/slab.c:152-153 | a power-of-two request is aligned to its size in every heap within the 32-bit range exactly up to one page |
| SlabExact.SmallExact | rt-thread/src/slab.c:534-652 | a small request takes pages only if no zone of its class has a free chunk and no wholly free zone is kept, and opens a kept zone only if no zone of its class has a free chunk; within a zone memory never used goes first, then the chunk that came back last |
| SlabExact.FreeExact | rt-thread/src/slab.c:846-903 | a zone leaves service exactly when its last chunk comes back while another zone serves its class; it is kept while fewer than two are, else its pages are given back |
| SlabExact.FreeMallocRoundTrip | rt-thread/src/slab.c:539-570 | a chunk of a used-up zone that is released is what the next request of its class gets, and then the heap is exactly as it was |
| SlabExact.IdleKeepsLittle | rt-thread/src/slab.c:850-903 | in every reachable state in which nothing is live, the only pages out are those of `memusage` and of at most one zone a size class and two more |
| SlabAllocator.Heap.constructor | rt-thread/src/slab.c:344-395 | zone size by the doubling loop, zone limit, `memusage` from the pages |
| SlabAllocator.Heap.TakeFromZone | rt-thread/src/slab.c:539-578 | never-used memory first, then the free list; the zone leaves its list with its last chunk |
| SlabAllocator.Heap.MarkUsage | rt-thread/src/slab.c:615-622 | the loop marks every page of a new zone with its offset |
| SlabAllocator.Heap.OpenZone | rt-thread/src/slab.c:625-652 | the header of a zone put to use and its first chunk |
| SlabAllocator.Heap.Malloc | rt-thread/src/slab.c:478-667 | takes the step of the model over the page allocator |
| SlabAllocator.Heap.Unlink | rt-thread/src/slab.c:862-865 | the walk finds the zone and takes it, and only it, off its list |
| SlabAllocator.Heap.Retire | rt-thread/src/slab.c:850-903 | a wholly free zone that is not alone goes to `zone_free`, and beyond the threshold back to the pages |
| SlabAllocator.Heap.Free | rt-thread/src/slab.c:771-904 | takes the step of the model over the page allocator |
| OrderedList.InsertOrdered | rt-thread/src/timer.c:354-367 | insertion behind equals keeps a list ordered |
| OrderedList.SubInsertBoth | rt-thread/src/timer.c:379-391 | inserting into a row and the row below keeps one a sublist of the other |
| TimerSpec.StartInv | rt-thread/src/timer.c:296-415 | starting a timer keeps the deadline-then-start order |
| TimerSpec.FireShrinks | rt-thread/src/timer.c:494-553 | every round of `rt_timer_check` leaves fewer due timers, whatever the timeout function does: it terminates |
| TimerTheory.CheckFires | rt-thread/src/timer.c:494-553 | a check fires due timers only, each at most once, in deadline-then-start order, and every due timer that no timeout function touches |
| TimerTheory.CheckFiresExactly | rt-thread/src/timer.c:494-553 | untouched due timers are exactly what fires |
| TimerTheory.CheckQuiet | rt-thread/src/timer.c:494-553 | after a check nothing due is left |
| TimerTheory.RunQuiet | rt-thread/src/timer.c:296-553 | in every run of calls and ticks the list is ordered, distinct, and nothing due is left between ticks |
| TimerTheory.PeriodicNoDrift | rt-thread/src/timer.c:494-553 | with a check on every tick a periodic timer fires at d, d + init, d + 2 init, ... and at no other tick |
| TimerTheory.BeatsAre | rt-thread/src/timer.c:532-538 | the k-th firing is at d + k init |
| TimerTheory.OneShotOnce | rt-thread/src/timer.c:494-553 | a one-shot timer fires once, at its deadline, and is then stopped |
| TimerTheory.StartedFires | rt-thread/src/timer.c:323-324 | counted from `rt_timer_start`, the first firing is `init_tick` ticks later |
| TimerTheory.StaysIdle | rt-thread/src/timer.c:422-450 | a stopped timer does not fire |
| TimerTheory.RunFlags | rt-thread/src/timer.c:296-553 | a timer is linked exactly when activated, on runs in which no timeout function leaves its own timer started |
| TimerTheory.FireFlagsIff | rt-thread/src/timer.c:532-543 | a firing keeps flag and link in agreement exactly when the timer ends up periodic or not started by its own function |
| TimerTheory.SelfRestartCannotBeStopped | rt-thread/src/timer.c:539-543 | a one-shot timer restarted by its own timeout function is linked with its flag cleared, `rt_timer_stop` refuses it, and it fires once more |
| TimerTheory.StopExact | rt-thread/src/timer.c:422-450 | `rt_timer_stop` succeeds exactly for an activated timer; then that timer alone leaves the list and loses its flag |
| TimerTheory.StartExact | rt-thread/src/timer.c:296-415 | `rt_timer_start` links the timer for `init_tick` ticks from now and sets its flag, whether it was linked or not; the others keep their order |
| TimerTheory.ControlExact | rt-thread/src/timer.c:459-487 | the control commands set time and mode and nothing else |
| TimerTheory.FireExact | rt-thread/src/timer.c:516-544 | whatever its timeout function does, a timer that has fired goes on exactly if it is periodic by then and not left stopped, at the time set by then, or if it was left started |
| TimerTheory.StopsItself | rt-thread/src/timer.c:532-543 | a timer, periodic or not, that its own timeout function stops has fired for the last time |
| Timer.WrappedOrder | rt-thread/src/timer.c:359-366 | comparing ticks modulo 2^32 is comparing the ticks, below half the range |
| Timer.RaisedStacked | rt-thread/src/timer.c:379-391 | inserting into the lower rows keeps every row a sublist of the row below |
| Timer.RemoveStacked | rt-thread/src/timer.c:121-129 | so does removing from all rows |
| Timer.TimerList.NextTimeout | rt-thread/src/timer.c:108-119 | the earliest deadline, or RT_TICK_MAX |
| Timer.TimerList.RemoveRows | rt-thread/src/timer.c:121-129 | the loop unlinks the timer from every row |
| Timer.TimerList.Walk | rt-thread/src/timer.c:345-367 | the inner loop stops behind every timer that is due no later, even as ticks wrap |
| Timer.TimerList.Search | rt-thread/src/timer.c:342-370 | going down at the last timer passed finds the place in every row |
| Timer.TimerList.InsertRows | rt-thread/src/timer.c:376-391 | the bottom row always, each row above while two low bits of the counter are zero |
| Timer.TimerList.Start | rt-thread/src/timer.c:296-412 | takes the step of the one-list model |
| Timer.TimerList.Stop | rt-thread/src/timer.c:422-450 | takes the step of the one-list model; refuses a timer that is not activated |
| Timer.TimerList.Obey | rt-thread/src/timer.c:459-487 | start, stop, and the control commands that set period and mode |
| Timer.TimerList.FireFirst | rt-thread/src/timer.c:516-544 | the body of the loop: unlink, call, restart if periodic and still activated |
| Timer.TimerList.Check | rt-thread/src/timer.c:494-553 | takes the step of the one-list model |
| Timer.TimerList.TickIncrease | rt-thread/src/clock.c:74-100 | one tick and the check |
| IpcList.Suspend | rt-thread/src/ipc.c:79-122 | the walk inserts in front of the first strictly less urgent thread, or at the end under FIFO |
| ServiceOrder.ServedInOrder | rt-thread/src/ipc.c:79-122 | on any wait list, with constant priorities, whoever stands further up is more urgent or as urgent and waiting for longer under PRIO, and waiting for longer under FIFO |
| Waiters.WakeInv | rt-thread/src/ipc.c:133-147 | resuming moves exactly the first waiter from the list to the woken; the rest keep their order |
| Calls.ChargeRemains | rt-thread/src/ipc.c:1512-1530 | what is left after charging the elapsed time is what was asked for less all the time waited so far; nothing is left exactly when that is all of it |
| Waiters.ResumeAll | rt-thread/src/ipc.c:156-183 | the loop leaves nobody waiting |
| SemaphoreTheory.RunInv | rt-thread/src/ipc.c:321-505 | in every reachable state initial value plus releases is value plus takes, threads wait only at value 0, a linked timer belongs to a waiting thread, every suspension is still waiting or was answered once |
| SemaphoreTheory.AnsweredOnceOnTime | rt-thread/src/thread.c:704-769 | every suspension that is over was answered exactly once: by its timer on the very tick, or by a grant before; a granted thread's timer is unlinked |
| SemaphoreTheory.TickInv | rt-thread/src/thread.c:747-769 | a tick times out exactly the threads whose time is over |
| SemaphoreTheory.ReleaseInv | rt-thread/src/ipc.c:430-470 | a release with waiters passes the unit on instead of raising the value |
| SemaphoreOrder.Served | rt-thread/src/ipc.c:321-505 | so on a semaphore in every reachable state |
| SemaphoreCalls.CountOfCalls | rt-thread/src/ipc.c:321-505 | on every run the value is what the calls and their answers leave: one more for each release that answered nobody, one less for each take that found a unit, the value of the last reset; who waits, since when and for how long, and how each wait has ended, is what the calls and answers say |
| SemaphoreCalls.NextAnswer | rt-thread/src/ipc.c:321-505 | after every run a take succeeds exactly while there is a unit and is refused at once exactly when there is none and it will not wait; a release answers one waiting thread if there is one, a tick exactly those whose time is over, a reset all |
| Semaphore.Semaphore.Take | rt-thread/src/ipc.c:321-401 | takes the step of the model over the real timer list |
| Semaphore.Semaphore.Release | rt-thread/src/ipc.c:430-470 | takes the step of the model over the real timer list |
| Semaphore.Semaphore.Control | rt-thread/src/ipc.c:480-505 | reset: everybody waiting fails, the value is set |
| Semaphore.Semaphore.TickIncrease | rt-thread/src/clock.c:74-100 | the timer check and `rt_thread_timeout` of every due thread, in firing order |
| MutexTheory.RunInv | rt-thread/src/ipc.c:651-870 | in every reachable state `owner`, `value` and `hold` agree, threads wait only while it is owned, only the owner is boosted, and under RT_IPC_FLAG_PRIO the owner is at least as urgent as every waiter |
| MutexTheory.ReleaseRestores | rt-thread/src/ipc.c:825-836 | the outermost release gives the releaser back its priority, whatever boosts it received, and changes nobody else's |
| MutexTheory.HandOff | rt-thread/src/ipc.c:838-867 | the mutex goes to the first waiter, the most urgent one under RT_IPC_FLAG_PRIO, and is never left unowned while somebody waits |
| MutexOrder.Served | rt-thread/src/ipc.c:651-870 | the first waiter, who gets the mutex next, is the most urgent one and among equals the oldest under PRIO, the oldest under FIFO, whatever boosts the owner received |
| MutexTheory.FifoInverts | rt-thread/src/ipc.c:838-857 | under RT_IPC_FLAG_FIFO a new owner can be less urgent than a waiter |
| MutexTheory.HandOffUrgentIff | rt-thread/src/ipc.c:838-857 | after a hand-over the owner is at least as urgent as all who wait exactly if the first waiter was most urgent |
| MutexTheory.KeepsUrgent | rt-thread/src/ipc.c:651-870 | every other call keeps the owner at least as urgent as all who wait, under either flag |
| MutexTheory.RunUrgentIff | rt-thread/src/ipc.c:651-870 | on a run no waiter is ever more urgent than the owner exactly if every hand-over goes to a most urgent waiter |
| MutexCalls.LockOfCalls | rt-thread/src/ipc.c:651-871 | on every run the mutex is the recursive lock its calls and answers describe: the same holder, `hold` is the number of its takes that no release has matched since it got the mutex, and its priority is that of the most urgent thread among itself and those that blocked on it |
| MutexCalls.NextAnswer | rt-thread/src/ipc.c:651-871 | after every run a take succeeds exactly for the holder or if nobody holds it, times out at once exactly if another thread does and the time is 0, and a release is accepted exactly from the holder |
| MutexCalls.OnlyLastRelease | rt-thread/src/ipc.c:822-867 | a call gives the mutex away exactly if it is the release that matches its owner's first take |
| Mutex.Mutex.Take | rt-thread/src/ipc.c:651-768 | takes the step of the model: recursion, free mutex, no wait, or boost and park (what the count means: MutexCalls.LockOfCalls) |
| Mutex.Mutex.Release | rt-thread/src/ipc.c:787-871 | not the owner, inner release, restore priority, hand over or free |
| Mutex.Mutex.Timeout | rt-thread/src/thread.c:747-769 | the thread leaves the wait list; the owner keeps its boost |
| EventTheory.RunNobodySatisfied | rt-thread/src/ipc.c:1026-1230 | in every reachable state no waiting thread's AND/OR condition is met by the event set |
| EventTheory.SweepEnough | rt-thread/src/ipc.c:1051-1098 | send's single pass is enough although CLEAR removes bits on the way |
| EventTheory.SecondPassIdle | rt-thread/src/ipc.c:1051-1098 | a second pass would resume nobody |
| EventTheory.SweepConsistent | rt-thread/src/ipc.c:1060-1095 | everybody resumed got all bits asked for under AND, else exactly those present; a cleared bit goes to nobody after |
| EventTheory.RunConsistent | rt-thread/src/ipc.c:1026-1230 | so in every reachable state |
| EventTheory.RunAnswered | rt-thread/src/ipc.c:1060-1229 | in every reachable state a resumed thread that runs is told all bits it asked for under AND, a non-empty part of them under OR |
| EventTheory.ReceivedAnswers | rt-thread/src/ipc.c:1155-1181 | so is a thread that need not wait |
| EventOrder.Served | rt-thread/src/ipc.c:1051-1098 | the waiting threads, and so those that one send resumes, stand in order of service |
| EventCalls.SendExact | rt-thread/src/ipc.c:1046-1098 | event by event: after a send an event is set exactly if it was set or is sent and no resumed CLEAR thread took it; a thread is resumed exactly if it finds all it asks for under AND, some of it under OR, among what the threads in front of it have left, and is granted just that; nobody else changes |
| EventCalls.SendPlain | rt-thread/src/ipc.c:1046-1098 | with no CLEAR thread waiting the events add up and exactly the threads they satisfy are resumed |
| EventCalls.RecvExact | rt-thread/src/ipc.c:1155-1212 | each answer of a receive with the condition for it; CLEAR removes exactly the events asked for, and only when they are received |
| EventCalls.LeaveExact | rt-thread/src/ipc.c:1246-1274 | a timeout takes one thread off the list and leaves the events, a reset takes all threads and all events |
| EventCalls.WaitsForItsCall | rt-thread/src/ipc.c:1183-1212 | on every run a thread waits for what its own call asked for |
| Event.Event.Check | rt-thread/src/ipc.c:1060-1079 | AND takes precedence over OR; what is granted |
| Event.Event.Walk | rt-thread/src/ipc.c:1051-1098 | the loop that removes while it walks does the pass of the model |
| Event.Event.Send | rt-thread/src/ipc.c:1026-1104 | takes the step of the model; an empty set is refused (what a send does: EventCalls.SendExact) |
| Event.Event.Receive | rt-thread/src/ipc.c:1124-1212 | up to the suspension |
| Event.Event.ReceiveAfterWake | rt-thread/src/ipc.c:1214-1229 | returns what the resumed thread was granted: all bits asked for under AND, a non-empty part of them under OR; keeps the invariant and everybody else's answer |
| Event.Event.Control | rt-thread/src/ipc.c:1246-1274 | reset: everybody waiting fails, the set is empty |
| MailboxTheory.RunInv | rt-thread/src/ipc.c:1439-1752 | no wake-up is lost: while receivers wait, stored mails are at most the woken receivers yet to run; while senders wait, free slots are at most the woken senders yet to run |
| MailboxTheory.QuietMeansBlockedForAReason | rt-thread/src/ipc.c:1439-1711 | when every woken thread has run, receivers wait only on an empty and senders only on a full mailbox |
| MailboxTheory.FirstInFirstOut | rt-thread/src/ipc.c:1439-1711 | between resets what was handed over is a prefix of what was accepted, in order |
| MailboxOrder.Served | rt-thread/src/ipc.c:1439-1711 | waiting senders and waiting receivers stand in order of service in every reachable state |
| MailboxCalls.FifoOfCalls | rt-thread/src/ipc.c:1439-1711 | from the arguments and answers of the calls alone: between resets the mails handed to receivers are the accepted ones in order of acceptance, and at most `size` are outstanding |
| MailboxCalls.NextAnswer | rt-thread/src/ipc.c:1439-1711 | after every run a send is accepted exactly while there is room, a receive is answered with the oldest accepted mail not yet delivered exactly while there is one, and any other call waits exactly as long as it asked to |
| MailboxCalls.BlockedAreCalls | rt-thread/src/ipc.c:1488-1660 | the blocked threads are those whose call is in progress, each with its own mail and what is left of its time |
| Mailbox.RingPush | rt-thread/src/ipc.c:1532-1539 | a store at `in_offset` is an append to the ring |
| Mailbox.RingPop | rt-thread/src/ipc.c:1680-1688 | a load at `out_offset` takes the oldest mail |
| Mailbox.Mailbox.Send | rt-thread/src/ipc.c:1439-1558 | takes the step of the model on the ring buffer, `in_offset == (out_offset + entry) mod size` |
| Mailbox.Mailbox.SendAfterWake | rt-thread/src/ipc.c:1512-1530 | waiting time is charged, the loop goes round |
| Mailbox.Mailbox.Receive | rt-thread/src/ipc.c:1587-1711 | takes the step of the model on the ring buffer and answers with the mail the step gives (which mail that is: MailboxCalls.NextAnswer) |
| Mailbox.Mailbox.ReceiveAfterWake | rt-thread/src/ipc.c:1660-1678 | waiting time is charged, the loop goes round |
| Mailbox.Mailbox.Control | rt-thread/src/ipc.c:1723-1752 | reset of both wait lists and the ring |
| MsgQueueTheory.RunPartition | rt-thread/src/ipc.c:1961-2319 | in every reachable state free list, queue and nodes in transit partition the nodes |
| MsgQueueTheory.ConservedIsTidy | rt-thread/src/ipc.c:1961-2319 | so no list has a node twice, no node is in two places, and every node is one of the `max_msgs`: what the methods of the class ask for |
| MsgQueueTheory.RunInv | rt-thread/src/ipc.c:1961-2319 | and every queued node holds what was sent, and no wake-up is lost |
| MsgQueueTheory.RefusedWhenFull | rt-thread/src/ipc.c:1982-1990 | a send is refused exactly when every node is queued or in transit |
| MsgQueueTheory.StepFollowsReference | rt-thread/src/ipc.c:1961-2319 | normal messages go to the back, urgent ones to the front, receivers take the front, nothing else moves |
| MsgQueueTheory.RunFirstInFirstOut | rt-thread/src/ipc.c:1961-2264 | without urgent messages what was received is a prefix of what was linked |
| MsgQueueTheory.CopiesWhatWasSent | rt-thread/src/ipc.c:2250-2251 | a receiver's copy starts with the message sent, as far as its buffer reaches |
| MsgQueueTheory.QuietReceiversWaitForMail | rt-thread/src/ipc.c:2136-2264 | when every woken receiver has run, receivers wait only on an empty queue |
| MsgQueueOrder.Served | rt-thread/src/ipc.c:2136-2264 | waiting receivers stand in order of service in every reachable state |
| MsgQueueCalls.DequeOfCalls | rt-thread/src/ipc.c:1961-2319 | after every run the queue is the double-ended queue that the calls describe: the bytes given to each send, at the front exactly if that call was urgent; every node out is held by the call that was given it |
| MsgQueueCalls.NextAnswer | rt-thread/src/ipc.c:1961-2248 | after every run a send gets a node of its own exactly while fewer than `max_msgs` are in use, a receive gets one exactly while a message waits, and waits exactly as long as it asked to |
| MsgQueueCalls.CopyOfCalls | rt-thread/src/ipc.c:2239-2251 | what a receiver copies begins with the message that was at the front of that double-ended queue when it was answered |
| MsgQueueCalls.FifoOfCalls | rt-thread/src/ipc.c:1961-2264 | as long as no call is urgent, messages are received in the order in which they were linked |
| MsgQueueCalls.LastBackFirstOut | rt-thread/src/ipc.c:2253-2259 | the node returned last is the next one given out; after a reset that is the one that was last in the queue |
| MsgQueue.MessageQueue.constructor | rt-thread/src/ipc.c:1778-1822 | the loop chains every node onto the free list |
| MsgQueue.MessageQueue.Claim | rt-thread/src/ipc.c:1961-1995 | a node leaves the free list with the urgency the call asked for, or the send is refused (what becomes of it: MsgQueueCalls.DequeOfCalls) |
| MsgQueue.MessageQueue.Fill | rt-thread/src/ipc.c:1997-2000 | the copy, outside the critical sections |
| MsgQueue.MessageQueue.LinkBack | rt-thread/src/ipc.c:2002-2036 | behind the tail, entry counted, a receiver woken |
| MsgQueue.MessageQueue.LinkFront | rt-thread/src/ipc.c:2090-2120 | in front of the head, entry counted, a receiver woken |
| MsgQueue.MessageQueue.Receive | rt-thread/src/ipc.c:2136-2248 | park, time out, or unlink the head and with the last one the tail |
| MsgQueue.MessageQueue.ReceiveAfterWake | rt-thread/src/ipc.c:2215-2248 | waiting time is charged, the loop goes round |
| MsgQueue.MessageQueue.CopyMessage | rt-thread/src/ipc.c:2250-2251 | min(len, msg_size) bytes of the node |
| MsgQueue.MessageQueue.Recycle | rt-thread/src/ipc.c:2253-2259 | the node returns to the free list |
| MsgQueue.MessageQueue.Control | rt-thread/src/ipc.c:2277-2319 | reset: waiters fail, every queued node goes to the free list, head first |
| Bitmap.FfsIsLowest | rt-thread/src/kservice.c:1248-1292 | the table lookup finds the lowest set bit, counted from one, and 0 exactly for 0 |
| ReadyBitmap.FlatTop | rt-thread/src/scheduler.c:181-187 | up to 32 levels the search gives the most urgent non-empty list |
| ReadyBitmap.RowsTop | rt-thread/src/scheduler.c:176-187 | so do the two searches of the two-level table, up to 256 levels |
| ReadyBitmap.WideSet | rt-thread/src/scheduler.c:678-681 | setting both bits keeps both levels in agreement with the lists |
| ReadyBitmap.WideClear | rt-thread/src/scheduler.c:764-775 | clearing the row bit, and the group bit with the row's last one, does too |
| SchedulerTheory.RunInv | rt-thread/src/scheduler.c:399-779 | in every reachable state each thread is in one place: running, on the one list of its priority, or on none |
| SchedulerTheory.ScheduleKeepsThreads | rt-thread/src/scheduler.c:399-499 | `rt_schedule` loses no thread and makes none runnable |
| SchedulerTheory.ScheduleBest | rt-thread/src/scheduler.c:399-499 | unlocked and with some thread ready, the running thread is afterwards at least as urgent as every ready one |
| SchedulerTheory.YieldRotates | rt-thread/src/thread.c:470-475 | a yield sends the running thread to the end of the line of its equals |
| SchedulerTheory.EachRunsOnce | rt-thread/src/thread.c:470-475 | among k threads sharing the top priority the i-th runs after i yields |
| SchedulerTheory.FullRound | rt-thread/src/thread.c:470-475 | k yields restore everything |
| SchedulerCalls.ScheduleExact | rt-thread/src/scheduler.c:399-499 | `rt_schedule` changes nothing exactly if the scheduler is locked, nobody is ready, or the running thread is strictly more urgent than all who are; else the head of the most urgent list runs and the old thread, if it still ran, is last in its line |
| SchedulerCalls.SuspendExact | rt-thread/src/thread.c:655-693 | succeeds exactly for a ready or running thread, which is then on no list; nobody else changes |
| SchedulerCalls.ResumeExact | rt-thread/src/thread.c:704-738 | succeeds exactly for a suspended thread, which is then last among its equals; nobody else changes |
| SchedulerCalls.PriorityExact | rt-thread/src/thread.c:570-607 | the thread has the new priority; a ready one is last among its new equals, and for any other no list changes |
| SchedulerCalls.StartupExact | rt-thread/src/thread.c:286-318 | a thread starts at its initial priority, last in its line, and then the scheduler runs |
| SchedulerCalls.TimeoutExact | rt-thread/src/thread.c:747-769 | a timed-out thread is queued as by `rt_thread_resume`, and then the scheduler runs |
| SchedulerCalls.ExitExact | rt-thread/src/scheduler.c:868-890 | only the outermost exit unlocks, and then the scheduler runs |
| SchedulerCalls.CallsEndBest | rt-thread/src/scheduler.c:399-499 | after a start, a timeout or the outermost exit the running thread is at least as urgent as every ready one |
| Scheduler.Scheduler.constructor | rt-thread/src/scheduler.c:199-248 | empty lists, empty bitmap |
| Scheduler.Scheduler.InsertThread | rt-thread/src/scheduler.c:652-686 | takes the step of the model and keeps bitmap and lists in agreement |
| Scheduler.Scheduler.RemoveThread | rt-thread/src/scheduler.c:749-779 | takes the step of the model and keeps bitmap and lists in agreement |
| Scheduler.Scheduler.GetHighest | rt-thread/src/scheduler.c:170-192 | the head of the most urgent non-empty list |
| Scheduler.Scheduler.Schedule | rt-thread/src/scheduler.c:399-499 | takes the step of the model: stay when strictly more urgent, else switch |
| Scheduler.Scheduler.Suspend | rt-thread/src/thread.c:655-693 | refuses a thread that is neither ready nor running |
| Scheduler.Scheduler.Resume | rt-thread/src/thread.c:704-738 | refuses a thread that is not suspended |
| Scheduler.Scheduler.ChangePriority | rt-thread/src/thread.c:570-607 | a ready thread is taken off and queued anew; masks follow |
| Scheduler.Scheduler.Startup | rt-thread/src/thread.c:286-318 | masks from the initial priority, resume, schedule |
| Scheduler.Scheduler.Timeout | rt-thread/src/thread.c:747-769 | insert and schedule |
| Scheduler.Scheduler.ExitCritical | rt-thread/src/scheduler.c:868-890 | the outermost exit schedules |
| ClockSpec.SliceRunsOut | rt-thread/src/clock.c:85-97 | the running thread runs for exactly what is left of its slice, then gets a new one and yields |
| ClockSpec.RoundRobin | rt-thread/src/clock.c:74-100 | threads sharing the top priority run in turn, each for exactly its own slice, and after one round the schedule is as it was |
| Clock.Clock.TickIncrease | rt-thread/src/clock.c:74-100 | tick, time slice, timer check, in that order |
| RomFs.Compile | rt-thread/tools/mkromfs.py:162-211 | the loop that collects dirents and payload while `v_len` runs ahead gives the laid-out folder |
| RomFs.NextItem | rt-thread/tools/mkromfs.py:181-209 | one round of that loop |
| RomFsReader.TableRead | rt-thread/tools/mkromfs.py:162-211 | a folder's table, wherever it is placed, reads back as its children in order |
| RomFsReader.ReadsBack | rt-thread/tools/mkromfs.py:230-241 | following addresses from the root dirent rebuilds names, types, contents and order exactly, for names without NUL; with an aligned base every address on the way is aligned |
| RomFsReader.ImageInjective | rt-thread/tools/mkromfs.py:230-241 | different trees have different images |
| RomFsReader.ImageFits | rt-thread/tools/mkromfs.py:230-241 | every tree whose image ends below 2^32 has one, of the computed length |

## Left out

- SMP scheduling, `cpu.c`, spinlocks and inter-processor interrupts: not configured.
- `signal.c` and the `-RT_EINTR` retries: signals are not configured.
- `mempool.c`, `device.c`, `object.c`, `irq.c`, string and formatting helpers, board support, HAL drivers: they would add easy members or have no visible semantics.
- Context switching, stacks, hooks, debug output, magic numbers, object names, and RT_ASSERT: an assertion that would halt is a precondition or cannot fail in the states modelled.
- Detaching, creating and deleting kernel objects.
- `rt_malloc`, `rt_free` and `rt_realloc` take a semaphore around their critical sections; a call is one step, so the calls that another thread makes between the sections of one `rt_realloc` or one slab call are not modelled.
- `mem.c` with `mem_size_aligned` below MIN_SIZE_ALIGNED: the search bound underflows there.
- SmallMem.SmallHeap.Realloc: `newsize` is not clamped to MIN_SIZE_ALIGNED, as in the code; the sentinel's `prev` is not tracked because splits do not maintain it.
- MemHeap.MemHeap.Realloc: does not model payload bytes, because item headers and layout are what the code maintains there; requests that the growth test misjudges (MemHeapTheory.MisjudgedIff) are excluded, because the code then places an item header at a wrapped address.
- MemHeapTheory.LayoutDependsOnLiveOnly: does not say in which order the free items are listed, because that depends on the run.
- SlabAllocator.Heap.Malloc: does not model the memory statistics, and requests that wrap when aligned to a page; the `z_next` and `c_next` links are the sequence fields `zoneArray`, `zoneFree` and `chunks` rather than pointers.
- `rt_realloc` and `rt_calloc` of `slab.c`: compositions of `rt_malloc`, a copy and `rt_free`.
- Timer.TimerList.Start: computing the deadline and inserting are one step, so a tick between the two critical sections of `rt_timer_start` is not modelled; rows hold sequences of timers rather than linked nodes.
- Soft timers: the same list checked by a thread.
- Timers whose period is 0 or at least half the tick range: the code asserts them away.
- Semaphore.Semaphore.TickIncrease: does not model other timers on the list, nor the scheduling of the woken threads.
- MutexTheory.RunInv: does not cover several nested mutexes or other changes of thread priorities while the mutex is in use, because the code restores and inherits correctly only without them; under RT_IPC_FLAG_FIFO the order between owner and waiters is not part of the invariant, see MutexTheory.RunUrgentIff.
- `rt_thread_control` does not re-sort the wait list of a suspended thread whose priority it changes; wait lists in the model therefore take the priorities as given at each step, and order of service is claimed for constant priorities only.
- The counters `sem->value` and `mutex->hold` have fixed widths: a release at the maximum and a take at 255 holds are excluded.
- Clock.Clock.TickIncrease: timeouts that fire in the check do not reach the scheduler state, because timers and scheduler are modelled apart.
- Scheduler.Scheduler.Schedule: does not model the interrupt nest level and the actual context switch.
- ClockSpec.RoundRobin: does not cover an `init_tick` of 0, which wraps, nor threads that become ready or leave during the round.
- `mkromfs.py`: reading directories, argument parsing, the C-text output, and the dump.
