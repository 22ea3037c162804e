# Kernel memory, stream, paging and scheduling model

This project models the parts of a small 32-bit kernel whose correctness rests on
invariants that span many functions, and proves what those parts promise:

- **Intrusive lists** (`Rings`): circular doubly linked lists on real `next`/`prev` pointers.
  Every operation is specified on a whole table of disjoint rings.
- **Buddy allocator** (`Blocks`, `Buddy`, `BuddyTheorems`, `BuddyHeap`): a state machine on
  values with its invariant and theorems, and the block records, free lists and recursion of
  `get_buddy_new`/`free_buddy_new` in memory, proved to refine it step by step.
- **Slab cache** (`Slab`, `SlabHeap`): the same for slab headers, `next_free` chains and the
  three slab lists. `SlabRace` runs salloc and the reaper of kswap against each other.
- **Allocator front end** (`Memory`, `MemoryTheorems`, `MemoryHeap`, `Boot`): kmalloc, kfree,
  fmalloc, ffree, the page functions, createSlab, the reaper of kswap, byte accounting and
  boot-time setup, composed from the layers above.
- **Stream devices** (`Stream`, `StreamShort`, `StreamLimits`): every shared access of writers and readers is
  one step; theorems hold for all interleavings.
- **Demand paging** (`Paging`, `PagingHeap`): two-level page tables filled in by user faults
  against the list of VM areas, which may be any at all; entry layout and page walk follow
  section 4.3 of the Intel SDM, volume 3A. `PagingMemory` runs page tables and allocator
  together: the frames of new tables are new because the allocator hands them out.
- **Scheduler, timers, run queues** (`Sched`, `SchedTheorems`, `Accounting`, `Fairness`, `SchedHeap`).
- **Internet checksum** (`Checksum`): sections 1 and 2 of RFC 1071, section 3.1 of RFC 791.

Pattern: a module on values (`Buddy`, `Slab`, `Memory`, `Sched`, `Paging`) gives each
operation as a total function of the state, with invariants as preconditions of the lemmas
about it. The matching `...Heap` module has the classes whose fields the C code updates in
place; each method's postcondition equates its new abstract state (`View()`) with that
function of the old one. A `panic` is a stop: `null`, `false` or `Stopped`, with the state
unchanged. A list node carries the number of its enclosing structure, which is what
`container_of` computes. `Machine` holds the constants they share, `Seqs` facts on sequences.

What the code does, where one might expect otherwise:

- The 8192 bytes that `read_byte_stream` clears are no limit on what may be written between
  drains. `append` always writes a terminator, so what is left behind the cleared part is never
  seen; the limit is the size of the buffer (`Stream.StreamSafe`, `StreamLimits.LimitExactly`).
  A device of one page, which `create_device` makes for a page size of 0, is too small for the
  clearing: its first drain writes behind it, after a single byte (`Stream.ShortBufferFails`).
- A program file may ask for areas below 4 MiB, in the kernel half, or sharing a page. The
  handler leaves the first two unserved (`Paging.ServedExactly`); of two areas that share a
  page the one that faults first decides the frame for both (`Paging.SharedPage`).
- Timeslices set by `pick_next_thread` with nicenesses up to 20 lie between 2 and 409 ticks,
  and both ends are reached.
- `reschedule` decrements the timeslice of the thread it leaves without a test, so the field
  can wrap in 32 bits (`SchedTheorems.SliceWrapsExactly`); the thread gets a new value when it
  is next picked, before it runs.
- A thread that is woken before its timer is due keeps the timer. If it calls `sleep_ms` again,
  the old timer cuts the new sleep short (`SchedTheorems.SleepsExactly`, `SchedTheorems.CutShort`).
- The reaper of kswap unlinks a slab without `slab_lock`. A salloc that has found the slab, or has
  moved it to another list, since the reaper picked it is left with memory that the zone hands out
  again (`SlabRace.RaceExactly`, `SlabRace.RaceOverlaps`).
- `compute_checksum` gives a wrong checksum for some buffer of every length above 131074 bytes,
  because its sum wraps around in 32 bits (`Checksum.RightExactly`).
- A thread that `reschedule` picks again is not charged, because its activation was just
  overwritten (`SchedTheorems.ChargedExactly`, `Accounting.TimeAccounted`).
- The normal zone starts two frames late, so its last two frames may not exist
  (`Boot.NormalInMemory`, `Boot.NormalBehindMemory`).
- The test of `free_buddy_new` for a block already free does not see a block that was joined to
  its lower buddy (`BuddyTheorems.SecondRelease`).

Properties that fail for some inputs come with the exact condition: `Stream.AppendIff` and
`Stream.NulExactly` (NUL bytes), `Stream.BufferSizeExactly` and `StreamLimits.LimitExactly`
(buffer sizes and bytes written), `SlabRace.RaceExactly` (unlinking by the reaper),
`StreamShort.ReadersExactly` (readers), `Paging.ServedExactly` (areas outside the user half, or
whose physical start has another offset within its page), `Paging.SharedPage` (areas sharing a
page), `SchedTheorems.SleepsLongEnough` (32-bit expirations), `SchedTheorems.SleepMsSleeps` and
`SchedTheorems.SleepsExactly` (32-bit expirations and timers left from earlier sleeps),
`SchedTheorems.ChargedExactly` and `SchedTheorems.SliceWrapsExactly` (a thread picked again, a
used-up timeslice),
`Checksum.LengthLimit` and `Checksum.RightExactly` (buffer lengths), `MemoryTheorems.KmallocKeeps`
and `MemoryTheorems.FmallocExactly` (panic), `Boot.NormalInMemory` (pages left over) and
`BuddyTheorems.SecondRelease` (a block joined to its lower buddy).

## Model
| member | source | states |
|---|---|---|
| `Rings.ListInit` | lib/list.h:30-33 | a node becomes an empty ring |
| `Rings.ListAddHead` | lib/list.h:51-57 | prepends to one ring of a table of disjoint rings; all rings stay well formed and every other ring keeps its contents |
| `Rings.ListAddTail` | lib/list.h:59-65 | appends to one ring, likewise |
| `Rings.ListRemove` | lib/list.h:75-80 | deletes a node from whichever ring it is in without knowing which; on a node linked to itself it changes nothing |
| `Rings.ListLength` | lib/list.h:67-73 | the number of nodes behind the head |
| `Rings.RingStep` | lib/list.h:35-49 | the neighbours that the iteration macros read are the neighbours in the sequence |
| `Blocks.BuddyFacts` | mem/buddy.c:105-112 | of two block-sized neighbours exactly one is the lower half, by alignment to the next order |
| `Blocks.ParityTest` | mem/buddy.c:107-110 | the parity test on the page number decides which half a block is |
| `Blocks.BuddyInZone` | mem/buddy.c:116-117 | the buddy index is inside the array for every aligned block of a zone |
| `Buddy.SplitKeeps` | mem/buddy.c:89-102 | breaking a block keeps tiling, exact lists and coalescing |
| `Buddy.MergeKeeps` | mem/buddy.c:144-159 | joining a block with its free buddy keeps them too |
| `Buddy.PutKeeps` | mem/buddy.c:163-165 | linking a block whose buddy is not free keeps them |
| `Buddy.GetKeeps` | mem/buddy.c:62-103 | an allocation keeps the invariant through its recursion and hands out a block that was not out |
| `Buddy.GetEffect` | mem/buddy.c:62-103 | it records exactly one new live block of the order asked for |
| `Buddy.FreeKeeps` | mem/buddy.c:125-169 | a release keeps the invariant through its recursion and forgets exactly the released block |
| `BuddyTheorems.InitInv` | mem/buddy.c:10-36 | the state at boot is tiled, coalesced and exactly listed |
| `BuddyTheorems.RunKeeps` | mem/buddy.c:62-169 | every history of allocations and releases keeps the invariant |
| `BuddyTheorems.ReleaseNeverPanics` | mem/buddy.c:125-131 | returning a held block reaches no panic |
| `BuddyTheorems.MaximalRuns` | mem/buddy.c:125-169 | the free blocks are exactly the maximal aligned runs of free pages |
| `BuddyTheorems.CanonicalForm` | mem/buddy.c:62-169 | the per-order free sets are determined by the live pages |
| `BuddyTheorems.HistoryIndependence` | mem/buddy.c:62-169 | two histories that leave the same live pages leave the same free sets |
| `BuddyTheorems.DrainedIsInitial` | mem/buddy.c:125-169 | returning everything restores the free sets of boot |
| `BuddyTheorems.GetThenFree` | mem/buddy.c:62-169 | a release undoes an allocation, up to list order |
| `BuddyTheorems.FreeThenGet` | mem/buddy.c:160-166 | an allocation undoes a release: with its buddy in use the released block is handed out next, and then every list is as before, in order |
| `BuddyTheorems.FreedIsNext` | mem/buddy.c:125-169 | joined or not, the released block is the first of its list and serves the next request of that order |
| `BuddyTheorems.SecondRelease` | mem/buddy.c:125-131 | a second release of a block panics if and only if the block is the first part of the free block that the first release left |
| `BuddyTheorems.Completeness` | mem/buddy.c:62-87 | the panic is avoided exactly when some aligned run of 2^order free pages exists |
| `BuddyTheorems.BestFit` | mem/buddy.c:73-102 | the block taken is the first of the smallest non-empty order, and only its upper parts become free |
| `BuddyHeap.BuddyMemDesc.InitBuddy` | mem/buddy.c:10-36 | records and lists show the initial state, or a panic below one largest block |
| `BuddyHeap.BuddyMemDesc.LinkTopBlocks` | mem/buddy.c:28-35 | the second loop links the largest blocks in ascending order |
| `BuddyHeap.BuddyMemDesc.TakeFirst` | mem/buddy.c:73-80 | the loop takes the first block of a list, if any |
| `BuddyHeap.BuddyMemDesc.Break` | mem/buddy.c:90-102 | the record updates are the split of the value machine |
| `BuddyHeap.BuddyMemDesc.GetBuddy` | mem/buddy.c:62-103 | refines the allocation; all eleven rings stay well formed; a panic changes nothing |
| `BuddyHeap.BuddyMemDesc.CalcMyBuddyPfn` | mem/buddy.c:105-112 | the page number of the buddy |
| `BuddyHeap.BuddyMemDesc.CalcFreeBuddy` | mem/buddy.c:114-123 | the free buddy of the same order, or NULL; the index is in bounds and the mismatching-PFN panic cannot happen |
| `BuddyHeap.BuddyMemDesc.Join` | mem/buddy.c:144-154 | the record updates are the merge of the value machine |
| `BuddyHeap.BuddyMemDesc.FreeBuddy` | mem/buddy.c:125-169 | refines the release; panics only on a block already free, before any change |
| `BuddyHeap.BuddyMemDesc.BuddyFromFrame` | mem/buddy.c:47-50 | the record of the block that starts at a frame |
| `Slab.SallocKeeps` | mem/slab.c:105-173 | never the early NULL with the lock held; a buffer that was not out is out and nothing else changed; it finds one exactly when a slab of the size has room |
| `Slab.SfreeKeeps` | mem/slab.c:59-103 | gives back exactly that buffer and keeps every slab on the list its count calls for |
| `Slab.SallocThenSfree` | mem/slab.c:58-165 | giving a buffer back restores every slab |
| `Slab.SfreeThenSalloc` | mem/slab.c:58-165 | the buffer given back last to a slab in use is handed out next, and every slab is as before; a slab with nothing out goes to the tail of the free list |
| `Slab.CreateKeeps` | mem/slab.c:175-209 | the new slab has nothing out, is not pinned, chains its buffers in address order and is the last on the free list; it has room for requests, and no buffer already out changes |
| `Slab.ReapKeeps` | bin/kswap.c:71-78 | a slab on the free list has nothing out, so reaping loses no buffer |
| `Slab.LiveMeansAllocated` | mem/slab.c:183-204 | a buffer missing from the chain means a positive count: the chain holds tot + 1 - alloc different buffers |
| `Slab.BufferInPage` | mem/slab.c:191-204 | every buffer lies in the page of its slab, behind the header |
| `Slab.BuffersApart` | mem/slab.c:196-204 | buffers of one slab do not overlap, headers included |
| `Slab.FitsIsQuotient` | mem/slab.c:183 | the number of buffers, counted piece by piece, is the quotient |
| `Slab.PageFilled` | mem/slab.c:175-203 | buffers of a slab lie next to each other behind a header of 36 bytes, with 8 bytes before each, and there is no room for one more |
| `Slab.TotAtLeastSix` | mem/slab.c:183 | every slab size leaves at least six usable buffers |
| `SlabHeap.AlwaysOnOneList` | mem/slab.c:59-173 | a slab is on exactly one list, the free list if and only if nothing of it is out |
| `SlabHeap.MemCache.InitLists` | mem/slab.c:12-16 | three empty lists |
| `SlabHeap.MemCache.Scan` | mem/slab.c:112-115 | the first slab of the wanted size on a list |
| `SlabHeap.MemCache.Pop` | mem/slab.c:117-124 | the first buffer leaves the chain; the NULL test cannot succeed |
| `SlabHeap.MemCache.Salloc` | mem/slab.c:105-173 | refines salloc; the lock is free afterwards on every path |
| `SlabHeap.MemCache.Sfree` | mem/slab.c:59-103 | refines sfree; FALSE exactly for addresses that are no buffer of a slab with something out; the lock is free afterwards |
| `SlabHeap.MemCache.Thread` | mem/slab.c:191-204 | the loop chains all tot + 1 buffers in address order and ends in NULL |
| `SlabHeap.MemCache.CreateSlab` | mem/slab.c:181-208 | refines the creation of a slab and appends it to the free list |
| `SlabHeap.MemCache.Forget` | bin/kswap.c:74-76 | the slab leaves the free list and its page holds no buffers any more |
| `SlabHeap.MemCache.PageIsFresh` | mem/slab.c:181-204 | a page without a slab has no buffer address in it |
| `SlabRace.StepExactly` | bin/kswap.c:71-78 | every step of salloc, of the reaper and of any other call keeps the allocator sound, but an unlinking exactly if the slab is still free and no salloc has found it |
| `SlabRace.RaceExactly` | bin/kswap.c:71-78 | a schedule keeps the allocator sound in every state if and only if all its unlinkings are of that kind |
| `SlabRace.RaceOverlaps` | mem/slab.c:147-165 | the schedule from boot after which one caller holds a page and another a buffer inside it |
| `SlabRace.SallocWithout` | mem/slab.c:105-173 | reaping one slab does not change what salloc finds in the others |
| `Memory.CalcPageOrder` | mem/mem.c:169-181 | the loop finds the smallest order that holds the pages |
| `Memory.OrderFits` | mem/mem.c:169-181 | the block holds the request, the next smaller one would not, and there is none exactly above 4 MiB |
| `MemoryTheorems.KallocKeeps` | mem/mem.c:126-152 | a new live block, accounted for, at an address nobody holds |
| `MemoryTheorems.KfreePageKeeps` | mem/mem.c:154-167 | a held page never panics and gives back exactly that block and its bytes |
| `MemoryTheorems.CreateSlabKeeps` | mem/slab.c:175-209 | createSlab turns one new page into the last slab of the free list, with room, and pinned if and only if asked for; other slabs and what is held stay as they are |
| `MemoryTheorems.SallocKeeps` | mem/slab.c:105-173 | NULL exactly without room, else a pointer nobody held |
| `MemoryTheorems.KmallocKeeps` | mem/mem.c:69-89 | never NULL; the panic happens exactly when no slab has room and no free run of the pages needed exists |
| `MemoryTheorems.KmallocEffect` | mem/mem.c:69-89 | up to 512 bytes a buffer of a slab of exactly this size, and no page while such a slab has room; above that the smallest block; slabs it creates are not pinned |
| `MemoryTheorems.KfreeKeeps` | mem/mem.c:91-98 | small or large, exactly that pointer is given back |
| `MemoryTheorems.ReapKeeps` | bin/kswap.c:71-78 | only the page of an unpinned slab with nothing out goes back |
| `MemoryTheorems.ReapAllKeeps` | bin/kswap.c:71-78 | after one round exactly the unpinned slabs of the free list are gone, the pinned ones in order |
| `MemoryTheorems.ReapedExactly` | bin/kswap.c:71-78 | one round takes away exactly the slabs neither pinned nor in use and gives their pages back; the others stay as they are |
| `MemoryTheorems.PinDecides` | mem/slab.c:31-37 | a new slab survives a round if and only if it is pinned |
| `MemoryTheorems.StepSlabs` | bin/kswap.c:71-78 | whatever is called, a slab keeps its page, size and pin, and only the reaper takes one away, neither pinned nor in use |
| `MemoryTheorems.PinnedStays` | mem/slab.c:31-37 | a pinned slab is still there, pinned, after any history |
| `MemoryTheorems.PinnedInRun` | mem/slab.c:31-37 | so is every slab created pinned in the course of a history |
| `MemoryTheorems.BootSlabsStay` | mem/slab.c:22-39 | after init_slab_cache and any history the slabs for threads, locks and wait queues are there |
| `MemoryTheorems.FmallocKeeps` | mem/mem.c:100-111 | a new block of the fast zone of at least the size asked for |
| `MemoryTheorems.FmallocExactly` | mem/mem.c:100-111 | fmalloc avoids its panic if and only if the fast zone has a free run of the pages needed |
| `MemoryTheorems.FfreeKeeps` | mem/mem.c:113-124 | a held fast pointer never panics and gives back exactly its block |
| `MemoryTheorems.RunKeeps` | mem/mem.c:69-167 | every history of all these calls keeps the invariant |
| `MemoryTheorems.HeldInsideBlock` | mem/mem.c:69-167 | a held region has the size asked for and lies inside one live block |
| `MemoryTheorems.HeldDisjoint` | mem/mem.c:69-167 | two held regions of the kernel zone never overlap |
| `MemoryTheorems.FastIsBlock` | mem/mem.c:100-111 | a held region of the fast zone has the size asked for and is exactly one live block of it |
| `MemoryTheorems.FastDisjoint` | mem/mem.c:100-124 | two held regions of the fast zone never overlap |
| `MemoryTheorems.RegionsDisjoint` | mem/mem.c:69-167 | two held regions of either zone never overlap, if the fast zone lies behind the kernel zone |
| `MemoryTheorems.StepSparesFast` | mem/mem.c:69-167 | a held fast pointer stays held until it is given back, whatever else is called |
| `MemoryTheorems.RunZones` | mem/mem.c:69-167 | no call moves or resizes a zone |
| `MemoryTheorems.CountersBounded` | mem/mem.c:100-167 | no counter underflows or exceeds its zone, and the total is the sum of the two |
| `MemoryTheorems.EndToEnd` | mem/mem.c:69-167 | after any history from boot: regions of both zones large enough and inside live blocks, counters exact, kernel regions disjoint, and all regions disjoint if the zones are |
| `MemoryHeap.KernelMemory.KallocNosleep` | mem/mem.c:141-152 | refines the page request in memory |
| `MemoryHeap.KernelMemory.KallocPage` | mem/mem.c:126-139 | the same, with the lock free afterwards |
| `MemoryHeap.KernelMemory.KfreePage` | mem/mem.c:154-167 | refines the page release; NULL is ignored |
| `MemoryHeap.KernelMemory.CreateSlab` | mem/slab.c:175-209 | refines createSlab and the pin, with the effect of `MemoryTheorems.CreateSlabKeeps` |
| `MemoryHeap.KernelMemory.Kmalloc` | mem/mem.c:69-89 | refines kmalloc and keeps the invariant; a result is never NULL |
| `MemoryHeap.KernelMemory.Classified` | mem/slab.c:62-79 | a held pointer is found as a slab buffer exactly when it is one |
| `MemoryHeap.KernelMemory.Kfree` | mem/mem.c:91-98 | refines kfree on NULL and on every held pointer, without panic |
| `MemoryHeap.KernelMemory.ReapFree` | bin/kswap.c:71-78 | the safe iteration visits the free list once and reaps its unpinned slabs |
| `MemoryHeap.KernelMemory.Fmalloc` | mem/mem.c:100-111 | refines fmalloc |
| `MemoryHeap.KernelMemory.Ffree` | mem/mem.c:113-124 | refines ffree on NULL and held pointers, without panic |
| `Boot.ZonesDisjoint` | mem/mem.c:184-199 | the three zones share no frame, for every page count |
| `Boot.ZoneSizes` | mem/mem.c:183-199 | an eighth of the pages each for kernel and fast zone, the rest for the normal zone, in whole blocks; none is empty if and only if there are 8192 pages |
| `Boot.NormalInMemory` | mem/mem.c:195-199 | the normal zone ends within memory if and only if at least two pages are left over behind its blocks; the other two zones always do |
| `Boot.AddressesFit` | mem/mem.c:184-196 | all frames of the kernel and fast zones have 32-bit virtual addresses |
| `Boot.NextReservation` | mem/mem.c:209 | requests of the largest order come out in ascending order |
| `Boot.ReserveRun` | mem/mem.c:204-209 | the loop succeeds exactly when the kernel zone has that many largest blocks |
| `Boot.ReservationsCover` | mem/mem.c:204-209 | the reservations cover every byte below the free memory pointer |
| `Boot.ReservationsExactly` | mem/mem.c:203-209 | `n` blocks are enough if and only if they end behind the page that follows the free memory pointer |
| `Boot.ReservationsTight` | mem/mem.c:203-209 | the last block reserved is needed for the memory used or the page behind it |
| `Boot.RecordsTake` | mem/buddy.c:10-36 | the records take 20 bytes a page from the next page boundary on, in whole pages |
| `Boot.ImageNeverHandedOut` | mem/mem.c:203-212 | after boot no pointer handed out by kmalloc, kalloc_page or fmalloc lies in memory the kernel had used, in any history that spares the reservations |
| `Boot.BootedDisjoint` | mem/mem.c:183-212 | after boot, in any history and for every page count, no two regions handed out overlap, whichever zones they are from |
| `Boot.StepSpares` | mem/mem.c:69-167 | a held kernel pointer stays held, as it is, until it is given back |
| `Boot.BootMemory.BootAlloc` | mem/mem.c:276-287 | where the request is placed, less than a page further, and where free memory starts then |
| `Boot.BootMemory.InitMemoryAlloc` | mem/mem.c:183-213 | it panics if and only if there are fewer than 8192 pages or the kernel zone does not reach past the page behind the memory used; otherwise everything is ready and the reservations of `Boot.ReservationsExactly` are made |
| `Stream.AppendIff` | lib/strings.c:59-63 | append adds the byte to the string if and only if it is not NUL |
| `Stream.Strlen` | lib/strings.c:6-10 | the index of the first NUL |
| `Stream.Append` | lib/strings.c:59-63 | stores byte and terminator behind the string |
| `Stream.InitInv` | kernel/files.c:113-152 | a new device of any size up to 4 MiB, with at most one reader, satisfies the protocol |
| `Stream.StepKeeps` | kernel/files.c:58-95 | every statement of every thread keeps mutual exclusion, the permission count and the contents; it leaves the buffer if and only if it stores the terminator behind a full buffer or clears 8192 bytes of a shorter one |
| `Stream.TakeKeeps` | kernel/files.c:81-82 | the reader finds `available` at least 1 and takes the oldest unread byte |
| `Stream.ClearKeeps` | kernel/files.c:83-86 | clearing 8192 bytes, of a buffer that has as many, is enough whatever its size: what is left behind them stays out of sight |
| `Stream.RunKeeps` | kernel/files.c:58-95 | the same over every schedule, on buffers of every size: the protocol holds, or everything stopped at one of those two steps |
| `Stream.StreamSafe` | kernel/files.c:58-95 | one reader, any writers, every schedule, every size: bytes read are a prefix of bytes written, `available` never wraps, and a run that leaves the buffer has written as many bytes since the last drain as the buffer has, or the buffer has fewer than 8192 |
| `Stream.AtRest` | kernel/files.c:58-95 | at rest the buffer holds exactly the unread bytes, and read_lock is free if and only if there are any |
| `StreamShort.ReadersExactly` | kernel/files.c:69-95 | every schedule keeps the order if and only if there is at most one reader or the first drain stops the device |
| `StreamShort.StepKeeps` | kernel/files.c:58-95 | with any number of readers, before the first drain whoever may take a byte finds one, and nothing stops before a byte is written |
| `Stream.NulExactly` | kernel/files.c:58-95 | for buffers of at least 2 bytes and writers that use some nonzero byte, every schedule keeps the order if and only if NUL is not used |
| `Stream.ShortBufferFails` | kernel/files.c:84 | the schedule that writes behind a buffer below 8192 bytes, with one byte written |
| `Stream.BufferSizeExactly` | kernel/files.c:113-126 | no schedule leaves a buffer that it has not filled since the last drain, if and only if the buffer has 8192 bytes; the same for schedules that write fewer bytes than the buffer has |
| `StreamLimits.FullBufferFails` | kernel/files.c:58-67 | for every size, as many bytes as the buffer has, written without a drain between them, leave it |
| `StreamLimits.LimitExactly` | kernel/files.c:58-95 | no schedule that writes at most n bytes leaves the buffer, if and only if n is below the size, or n is 0 for a buffer below 8192 bytes |
| `Stream.CharDevice.WriteByteStream` | kernel/files.c:58-67 | run undisturbed, the call is its eight steps |
| `Stream.CharDevice.ReadByteStream` | kernel/files.c:69-95 | run undisturbed with a byte to read, the call is its seven or eight steps and returns the byte taken |
| `Paging.CalcPfnFirst` | mem/paging.c:40-53 | the first area that holds the address decides the frame |
| `Paging.CalcPfnNone` | mem/paging.c:40-53 | an address in no area gets -1 |
| `Paging.PlaceSteps` | mem/paging.c:40-53 | the first byte of an area is at its physical start, every next byte at the next address |
| `Paging.CalcPfnOf` | mem/paging.c:40-53 | in a page that an area has to itself, that area decides for every address |
| `Paging.KernelHalf` | mem/paging.c:143-218 | every directory maps the kernel half and the first 4 MiB alike, for the supervisor |
| `Paging.TablesAgree` | mem/paging.c:92-126 | an address of an area in the user half is unmapped or maps to its place in the area, if the area keeps offsets within pages and has the page to itself |
| `Paging.UserMappedInAreas` | mem/paging.c:78-126 | what is mapped for user mode lies in a page of an area |
| `Paging.FaultKeeps` | mem/paging.c:56-126 | every user fault of a process with any list of areas keeps all tables in agreement with their areas |
| `Paging.FaultServes` | mem/paging.c:92-126 | an unmapped address of an area is mapped by its fault, to its place in the first area that holds it exactly when that area keeps offsets within pages |
| `Paging.ServedExactly` | mem/paging.c:78-126 | an address of an area is at its place after its fault if and only if it lies between the first 4 MiB and the kernel half and the area keeps offsets within pages |
| `Paging.KilledExactly` | mem/paging.c:76-140 | a process is killed if and only if the access was forbidden, or went to the kernel half, or to an address in none of its areas |
| `Paging.DoneMeansMapped` | mem/paging.c:76-126 | otherwise the address lies in an area and is mapped when the access is made again, for user mode to read and write unless it lies below 4 MiB |
| `Paging.SharedPage` | mem/paging.c:40-53 | once an address of one area is served, an address of another area in the same page is at its place if and only if both areas agree on the frame |
| `Paging.FaultElsewhere` | mem/paging.c:92-126 | a fault changes no translation of another page or directory, and none that exists |
| `Paging.OthersUnchanged` | mem/paging.c:92-126 | a fault changes nothing that another process walks |
| `Paging.LowAreaNotServed` | mem/paging.c:92-108 | below 4 MiB the kernel's mapping is in the way: the fault changes nothing and user mode has no access |
| `Paging.SpawnKeeps` | mem/paging.c:156-188 | a new process directory, with any list of areas, keeps all tables in agreement; the process is entered with exactly these areas |
| `Paging.SpawnedEmpty` | mem/paging.c:156-188 | a new process has nothing mapped for user mode |
| `Paging.RunKeeps` | mem/paging.c:56-188 | over every run, whatever areas the processes have, tables agree with areas and existing translations stay |
| `Paging.DemandPaging` | mem/paging.c:56-188 | after any run: kernel half, area addresses and user-mapped pages as promised, in every directory |
| `Paging.ServedStays` | mem/paging.c:56-188 | an address served in the course of a run walks to its place at the end of it |
| `Paging.SetPfn` | mem/page.h:18-21 | replaces the frame number and keeps the low twelve bits |
| `Paging.SetUsermode` | mem/page.h:23 | sets its bit and no other |
| `PagingHeap.FindPfn` | mem/paging.c:40-53 | the scan computes the frame of the first area, or -1 |
| `PagingHeap.IsValidVa` | mem/vma.c:36-46 | TRUE exactly for addresses of some area |
| `PagingHeap.PageTables.MakeKernelPte` | mem/paging.c:143-154 | all 1024 entries map consecutive frames for the supervisor |
| `PagingHeap.PageTables.InitKernelPaging` | mem/paging.c:190-218 | the loop builds tables that satisfy the invariant, in the frames it is given |
| `PagingHeap.PageTables.InitUserPaging` | mem/paging.c:156-188 | the loop builds the copy of the kernel's rows |
| `PagingHeap.PageTables.PageFaultHandler` | mem/paging.c:56-140 | refines the handler; it kills the process exactly on a forbidden access, in the kernel half, or outside all areas |
| `PagingMemory.KallocGivesNewFrame` | kernel/elf.c:11-12 | the page of a new directory or kernel table is not one in use |
| `PagingMemory.FmallocGivesNewFrame` | mem/paging.c:111-122 | nor is the frame of a new table of a process |
| `PagingMemory.StepBacks` | mem/mem.c:69-167 | every directory and table stays on memory that is handed out, over every call that returns no region with a table on it |
| `PagingMemory.RunShadowed` | mem/paging.c:56-188 | any run of allocator calls, user faults and new processes is, on its tables, a legal run of the paging machine |
| `PagingMemory.EntriesFit` | mem/page.h:18-25 | every entry that a page walk reads, in any directory, is a number of 32 bits |
| `PagingMemory.ImageBacked` | kernel/kernel.c:50-59 | from the setup of memory to that of paging the kernel directory stays inside the reservations |
| `PagingMemory.KernelTablesNew` | mem/paging.c:143-154 | the pages that the kernel tables get are new, different and in the kernel zone |
| `PagingMemory.InitPaging` | mem/paging.c:190-218 | with the pages the allocator hands out, init_kernel_paging starts both machines in agreement |
| `SchedTheorems.MovesKeep` | proc/thread.c:75-107 | sleep, stop and wake keep every thread in at most one queue; idle stays in the running queue |
| `SchedTheorems.MovesExactly` | proc/thread.c:75-107 | a woken thread is the last of the running queue, one put to sleep or stopped the first of its queue, in the state of that queue; the rest keeps its order and nothing else changes |
| `SchedTheorems.RunMatches` | proc/thread.c:75-107 | over every run the state of each queued thread names its queue |
| `SchedTheorems.WakeUpTimersEffect` | kernel/scheduler.c:44-66 | exactly the timers not due are left, in order; the threads of the others go to the tail in list order |
| `SchedTheorems.TimersSplit` | kernel/scheduler.c:50-62 | every timer is on one side, by its own expiration |
| `SchedTheorems.DueTimerWakes` | kernel/scheduler.c:50-62 | a due timer puts its thread into the running queue and is gone |
| `SchedTheorems.SleepsLongEnough` | proc/thread.c:67 | the expiration stored is never late, and is the tick asked for if and only if product and sum fit in 32 bits |
| `SchedTheorems.SleepMsSleeps` | proc/thread.c:64-73 | the caller, unless it is idle, is asleep with no timer due before the tick it asked for, if and only if product and sum fit in 32 bits and no timer of its is left that is due before |
| `SchedTheorems.SleepsExactly` | proc/thread.c:64-73 | in every run in which nobody wakes it the caller is still asleep before the tick it asked for, if and only if that condition holds or no interrupt comes before that tick |
| `SchedTheorems.CutShort` | proc/thread.c:64-73 | a caller with an earlier timer due at the next interrupt is asleep after sleep_ms and ready one interrupt later |
| `SchedTheorems.WakesOnTime` | kernel/scheduler.c:44-66 | a sleeper that nobody wakes sleeps up to the interrupt before its timer is due, and the interrupt at which it is due makes it ready |
| `SchedTheorems.StaysAsleep` | kernel/scheduler.c:44-66 | over any run in which nobody wakes it, a sleeper stays in the sleep queue until that tick |
| `SchedTheorems.TimesliceRange` | kernel/scheduler.c:26-35 | between 1 ms and 200 ms in ticks for nicenesses up to 20 |
| `SchedTheorems.TimesliceRangeTight` | kernel/scheduler.c:26-35 | both ends are reached |
| `SchedTheorems.PickEffect` | kernel/scheduler.c:3-39 | a thread of least runtime in the running queue gets a timeslice in range; nothing else changes |
| `SchedTheorems.PickSlice` | kernel/scheduler.c:12-35 | the first thread of least runtime; its timeslice is, in ticks, its share of 200 ms and 5 ms for each step of niceness below the average of the queue, at least 1 ms |
| `SchedTheorems.NicenessCosts` | kernel/scheduler.c:26-35 | for any two picks with equal queue length and average, each step of niceness costs exactly 5 ms down to the minimum; a thread of average niceness gets 200 ms divided by the length |
| `SchedTheorems.HandicapUsesUp` | kernel/scheduler.c:26-35 | the minimum of 1 ms goes exactly to a thread whose handicap leaves no more |
| `SchedTheorems.PickInstances` | kernel/scheduler.c:26-35 | among nicenesses 10 and 0 the picked 0 gets 256 ticks, among 0 and 20 the picked 20 gets 102 |
| `SchedTheorems.RunKeeps` | kernel/scheduler.c:3-83 | over every run, new threads included, queues stay disjoint, idle ready, the division defined and the current timeslice at most 200 ms |
| `SchedTheorems.ChargedExactly` | kernel/scheduler.c:68-76 | the caller of reschedule is charged for the time since its activation if and only if another thread is picked or no time has passed |
| `SchedTheorems.SliceWrapsExactly` | kernel/scheduler.c:68-76 | its timeslice wraps around if and only if it is not idle, has none left, and another thread is picked |
| `SchedTheorems.ReschedulePeculiar` | kernel/scheduler.c:68-76 | both happen: a thread picked again goes uncharged, and a used-up timeslice becomes 2^32 - 1 |
| `SchedTheorems.CreateKeeps` | proc/thread.c:293-360 | a new thread is on no queue, has not run, has no timeslice, and changes nothing else |
| `SchedTheorems.NewcomerFirst` | kernel/scheduler.c:12-24 | once it is woken the next pick is a thread that has not run |
| `Accounting.KeepCharges` | drivers/timer.c:91-97 | a thread that goes on, unless it is idle, gains exactly the time since its activation and starts anew at this time with one tick less |
| `Accounting.SwitchCharges` | drivers/timer.c:79-84 | so does a thread that is left; the next one starts at this time with one tick less, and no other thread changes |
| `Accounting.HandlerCharges` | drivers/timer.c:65-97 | every interrupt charges the thread that was running, unless it is idle, exactly the time since its activation, and nobody else; in the three cases time left, picked again and switched away it says who runs, from when, and with what timeslice |
| `Accounting.RescheduleCharges` | kernel/scheduler.c:68-77 | the picked thread runs from this time on; only the caller is charged, and only if another is picked |
| `Accounting.TimeAccounted` | drivers/timer.c:76-97 | over every run with a clock that does not go back, the runtimes of all threads but idle grow by the time in which idle was not running, less the time before calls of reschedule that pick their caller again; idle is never charged |
| `Accounting.InterruptsAccount` | drivers/timer.c:76-97 | without such calls, as in every run of interrupts, they grow by exactly that time |
| `Fairness.IdleYields` | bin/init.c:6-10 | idle is never picked while another thread is in the queue |
| `Fairness.HandlerProgress` | drivers/timer.c:37-97 | every interrupt runs the waiting thread or lowers its bound |
| `Fairness.BoundedWaiting` | drivers/timer.c:37-97 | every thread but idle runs within a bound computed from the runtime gaps, for any increasing clock |
| `SchedHeap.RunQueues.Detach` | proc/thread.c:80 | unlinks a thread from whichever queue it is in |
| `SchedHeap.RunQueues.SleepThread` | proc/thread.c:90-98 | refines sleep_thread on the three rings |
| `SchedHeap.RunQueues.StopThread` | proc/thread.c:75-83 | refines stop_thread |
| `SchedHeap.RunQueues.WakeUpThread` | proc/thread.c:100-107 | refines wake_up_thread |
| `SchedHeap.RunQueues.AddThread` | proc/thread.c:293-360 | a new thread joins the table with its node linked to itself |
| `SchedHeap.RunQueues.SleepMs` | proc/thread.c:64-71 | adds the timer at the head and puts the caller to sleep |
| `SchedHeap.RunQueues.WakeUpTimers` | kernel/scheduler.c:44-66 | refines wake_up_timers; frees exactly the due timers, each once |
| `SchedHeap.RunQueues.Scan` | kernel/scheduler.c:12-24 | the loop computes first minimum, count and sum |
| `SchedHeap.RunQueues.PickNextThread` | kernel/scheduler.c:3-39 | refines pick_next_thread, whose result `SchedTheorems.PickSlice` gives in numbers |
| `SchedHeap.RunQueues.KeepRunning` | drivers/timer.c:91-97 | charges the current thread and lowers its timeslice, as `Accounting.KeepCharges` gives in numbers |
| `SchedHeap.RunQueues.SwitchTo` | drivers/timer.c:76-84 | charges the thread left, starts the one picked, as `Accounting.SwitchCharges` gives in numbers |
| `SchedHeap.RunQueues.SchedulerHandler` | drivers/timer.c:37-97 | refines the interrupt, whose charges `Accounting.HandlerCharges` gives, and keeps the invariant |
| `SchedHeap.RunQueues.Reschedule` | kernel/scheduler.c:68-77 | refines reschedule and keeps the invariant |
| `Checksum.FoldsAgree` | net/ipv4.c:18-20 | folding to the end and two additions agree on every 32-bit sum |
| `Checksum.LengthLimit` | net/ipv4.c:58-70 | every buffer of a length fits the signed accumulator if and only if it has at most 65537 bytes, and the unsigned one if and only if it has at most 131074 |
| `Checksum.RightExactly` | net/ipv4.c:6-24 | compute_checksum is right on every buffer of a length if and only if the length is at most 131074 bytes |
| `Checksum.ByteOrderIndependent` | net/ipv4.c:38-51 | the bytes stored by the little-endian host are those of the network-order checksum |
| `Checksum.StoredChecksumVerifies` | net/ipv4.c:38-51 | with the checksum in a zeroed word recomputation gives 0 |
| `Checksum.OneWordErrors` | net/ipv4.c:6-24 | a replaced word goes unnoticed exactly if it equals the old one modulo 65535 and the buffer is not all zeros |
| `Checksum.ComputeChecksum` | net/ipv4.c:6-24 | the loop-fold algorithm in 32 bits, on buffers of every length and whatever byte lies behind an odd one; up to 131074 bytes it is the checksum |
| `Checksum.Ipv4Checksum` | net/ipv4.c:55-82 | the two-step algorithm computes the same |
| `Checksum.StoreChecksum` | net/ipv4.c:38-51 | the field is filled in and the buffer verifies |

## Left out
- Recognition of slab buffers by fingerprint (mem/slab.c:62-79): memory is searched by address, so the test is exact by construction.
- What locks do beyond their state word (lock/lock.c:72-103): wait queues and wake-ups decide only when a thread tries again; liveness is not modelled.
- Stream.CharDevice.WriteByteStream: a writer that finds the mutex taken is in the step machine only; the method covers a call with the lock free.
- Stream.CharDevice.ReadByteStream: the retry loop of a disturbed reader is in the step machine only; the method covers a call with the locks free.
- MemoryHeap: `kmem_lock` and `slab_lock` are flags that every call leaves free; calls of different threads do not interleave there.
- SlabRace: only salloc and the reaper are divided into steps; the reaper picks its next slab on the free list, so a walk that has strayed to another list through a stale `next` is not followed.
- init_slab_cache (mem/slab.c:12-40): the sizes of `Thread`, `Lock` and `WaitQ` are parameters of `MemoryTheorems.BootSlabs`.
- What is done with the normal zone (mem/mem.c:198): nothing is allocated from it here.
- Wrap-around of boot addresses: `free_mem_addr` is unbounded here.
- Kernel-mode page faults: they also write the shared directory (mem/paging.c:123).
- Checksum.Ipv4Checksum: buffers above 65537 bytes, where the signed sum of the C code overflows, which C leaves undefined.
- PagingHeap.IsValidVa: the kernel-only case of a NULL thread is not modelled.
- The list of VM areas: a sequence in list order; rings are modelled once, in the lists above.
- handle_signals, child_awoken, kill_process, sys_wait4 and thread reaping are no steps of the scheduler's machine.
- `_switch_to_thread`, rdtsc, interrupts, ports and the tables of the CPU: a switch is an assignment of the current thread, the time stamp counter a parameter.
- Header fields other than the checksum, the other network protocols, ELF loading, users, shell, screen and keyboard: field filling or input and output.
