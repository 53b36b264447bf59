# A model of the kernel, proved in Dafny

The kernel is a small teaching kernel for i686. This project models its five
stateful parts and proves what each of them is for.

**Scheduler** (`delta_queue`, `scheduler_model`, `scheduler_steps`, `scheduler_runs`,
`thread_lives`, `early_wake`, `tcb_list`, `scheduler`). `SchedulerModel.State` is the
scheduler as a value: four priority lists, the delta-encoded sleep queue, the zombie list, the counters.
`SchedulerSteps.Step` is one event (a thread is started, a timer tick, a thread marks
itself asleep or exiting, a yield, a zombie is cleaned up); `SchedulerRuns.Run` is a
whole run, with a history of time, deadlines and charged ticks that an observer would
write down. `ThreadLives` says what becomes of a single thread: it keeps what it was
started with, sleeps when it asks to, waits behind the others when it is preempted, and
is finished after its exit. The classes `TcbList` and `Scheduler` are the C code: control blocks linked
through their own `next` and `prev`, changed in place. Each method is proved to take
the class's `State()` where the model says. Time passes only in ticks.

**Memory manager** (`paging_bits`, `address_bits`, `address_space`, `page_ranges`,
`physical_memory`, `machine`, `frame_pool`). `PagingBits` proves the address macros against the two-level walk of the
Intel SDM, Vol. 3A, section 4.3, for all 32-bit addresses. `AddressSpace.Space` is what
the page tables and the free-frame stack mean; the fields of an entry are those that
the 32-bit entries carry (`MarkedByFields`, `FilledByFields`). The class `Machine` has
physical memory and nothing else: it reads and writes entries and stack slots only at
virtual addresses, so an access to an entry may fault inside the fault handler. Its
methods are proved to do to the address space what `AddressSpace` says and to keep, of
every other pool page, its frame and its contents. A pool page is a page below the
window in a frame of the pool; about the contents of the kernel's own pages, which the
bootstrap code mapped, nothing is said. `FramePool.Init` is the start-up, in which the stack
takes the frames for its own pages from itself. "Sound" means: every frame handed to
the pool is at exactly one place, free, as a table, or as a page. "Ours" means: every
mapped page but those the bootstrap code mapped has a frame of the pool. Start-up
establishes both and every event keeps both, so a run assumes only that the pool is not
empty at a fault and that the kernel's own pages are not released.

**Heap and kmalloc** (`heap`, `kmalloc_model`, `kmalloc_runs`, `kmalloc`). The arena is
the bump heap with its blocks and the four free lists. `Kmalloc` works on headers
linked from four list heads, and gets new blocks from a `Heap` that marks pages through
a `Machine`; storing the size of a new block takes its page fault there. Sums are 32-bit sums as in the code.

**Files** (`kstring`, `ramdisk`, `tar_archive`, `tarfs`, `vfs`). The C string routines
on byte buffers, a disk in memory, the walk over tar headers, and the mount table. The
specification side has an encoder for archives in the ustar interchange format (pax
utility, IEEE Std 1003.1) and lookup in a list of members; the walk is proved to agree
with the lookup. The header struct has 511 bytes and the cursor advances by 512.

**Program loader** (`elf_loader`). The memory image made by the segment loop, the pages
it lies on, and address translation.

Where the code does less than one might expect, the exact condition is proved, and an
input that shows it:

- the wake loop compares every delta with the whole elapsed time, so sleepers can wake
  early (`WakesEarly`, and `WakesThreeTicksEarly` on a run from boot); it does what a delta queue should exactly under `WakeExactIff`,
  and nobody is ever late (`NoSleeperIsLate`);
- a pick dereferences NULL exactly under `PickFailsIff` (`PickFails`), never while one
  thread stays runnable (`IdleKeepsRunning`);
- a fault with an empty pool maps frame 0 (`FillsFromPoolIff`, `PoolRunsOut`), and
  unmapping a page whose frame is not the pool's puts a foreign frame into the pool
  (`ReleaseSoundIff`, `KernelReleased`);
- the rounding of memory-map regions is right exactly under `VisitedIff`
  (`FramePool.RoundingWraps`);
- a request near 4 GiB gets a 64-byte block (`EnoughIff`, `KmallocModel.RoundingWraps`)
  or wraps the heap pointer (`CarveTiledIff`, `HeapWraps`);
- a read whose offset plus size exceeds 64 bits is not clamped (`ClampedIff`,
  `ClampWraps`);
- the empty name is found in the blocks that end an archive (`StatExactIff`,
  `EmptyNameFound`);
- a segment that does not start on a page boundary may reach one page further than
  was mapped (`CoveredIff`, `StraddlesPage`).

`dafny verify dfyconfig.toml` checks the whole project.

## Model

| member | source | states |
|---|---|---|
| DeltaQueue.InsertMeaning | src/kernel/scheduler.c:59-72 | inserting a sleeper gives it exactly the ticks it asked for, leaves every other sleeper's remaining time as it was, and keeps the queue in order, for any queue length |
| DeltaQueue.InsertBounded | src/kernel/scheduler.c:62-67 | no delta outgrows its 32-bit word, so the subtractions do not underflow |
| DeltaQueue.AdvanceMeaning | src/kernel/scheduler.c:77-90 | the reference: letting e ticks pass removes exactly those whose time has come and takes e ticks off all others |
| DeltaQueue.AfterWakeNeverLate | src/kernel/scheduler.c:77-90 | whoever the wake loop leaves asleep had more than the elapsed ticks to go and is left with at most the difference; the new head delta is positive |
| DeltaQueue.WakeExactIff | src/kernel/scheduler.c:77-90 | the wake loop is the reference exactly if all sleepers are due or the first with time left has more than the elapsed ticks left |
| DeltaQueue.WakesEarly | src/kernel/scheduler.c:79-82 | two sleepers with 3 and 6 ticks to go both wake after 3 |
| DeltaQueue.StaysAsleepIff | src/kernel/scheduler.c:59-90 | exactly when the wake loop that follows an insertion leaves the newcomer asleep: its delta, or one in front of it, exceeds the elapsed ticks |
| EarlyWake.WakesThreeTicksEarly | src/kernel/scheduler.c:77-90 | a run from boot: threads 1, 2 and 3 are started, 1 sleeps for three ticks and 2 for six, and after three ticks a pick makes 2 runnable with its deadline three ticks ahead |
| ThreadLives.ExitIsFinal | src/kernel/scheduler.c:48-58 | over any run after its exit, as soon as there was a pick, a thread is a zombie or freed, and never again current, runnable or asleep |
| ThreadLives.ExitMakesZombie | src/kernel/scheduler.c:48-58 | the pick after the exit, by a yield or by the tick that uses the quantum up, puts the thread in front of the zombies and runs another |
| ThreadLives.SleepsIff | src/kernel/scheduler.c:41-47 | exactly when a thread that asked for k ticks, k > 0, is asleep after the pick; it is not lost otherwise |
| ThreadLives.ParametersStay | src/kernel/scheduler.c:34-37 | over any run a thread keeps its priority and quantum until it is freed |
| ThreadLives.SpawnedAsAsked | src/kernel/scheduler.c:26-37 | a new thread is last in the list of the priority asked for, and has that priority and quantum for as long as it is on record |
| ThreadLives.CleansFree | src/kernel/scheduler.c:106-120 | k clean-ups free the k threads that exited last, the last one first, and change nothing else |
| ThreadLives.ReadyOrder | src/kernel/scheduler.c:73-90 | in each list a pick leaves first who waited, then the preempted thread, then the woken ones in sleeping order |
| ThreadLives.PreemptedPlace | src/kernel/scheduler.c:73-98 | a preempted thread runs on only if nobody waited in its list, and else waits right behind all that did |
| SchedulerSteps.BootInv | src/kernel/scheduler.c:11-25 | the invariant holds after scheduler_init |
| SchedulerSteps.StepKeepsInv | src/kernel/scheduler.c:34-120 | every event keeps it: shapes, every thread at one place, quantum budgets, bounded deltas with a positive head |
| SchedulerSteps.ExactlyOnePlace | src/kernel/scheduler.c:26-120 | every thread is at exactly one of: running, the list of its priority, asleep, zombie, freed |
| SchedulerSteps.ZombieOnlyThere | src/kernel/scheduler.c:106-120 | what cleanzombie frees is neither running nor runnable nor asleep, and no zombie is freed twice |
| SchedulerSteps.WakeMeaning | src/kernel/scheduler.c:77-90 | the loop wakes exactly the leading expired sleepers and appends them in order to the lists of their priorities |
| SchedulerSteps.PickCounts | src/kernel/scheduler.c:52-105 | a pick neither loses nor duplicates anybody |
| SchedulerSteps.PickElapsed | src/kernel/scheduler.c:54-55 | a pick charges the old thread and resets a target that has spent its quantum, and changes no other thread's account |
| SchedulerSteps.PickBudgeted | src/kernel/scheduler.c:101-103 | the target gets exactly what is left of its quantum |
| SchedulerSteps.AtPickReady | src/kernel/arch/i686/scheduler.s:30-34 | neither counter wraps, and what the slice has used is within the quantum |
| SchedulerRuns.RunGood | src/kernel/scheduler.c:11-120 | every state of every legal run satisfies the invariants, punctuality and the account included |
| SchedulerRuns.NobodyIsLost | src/kernel/scheduler.c:34-37 | whoever was ever added is on record at the end of any run |
| SchedulerRuns.NoSleeperIsLate | src/kernel/scheduler.c:52-102 | in any run, right after any pick, everybody still asleep has its deadline ahead and no more left than until then |
| SchedulerRuns.OverdueLessThanASlice | src/kernel/arch/i686/scheduler.s:30-34 | between picks a sleeper is overdue by less than the running thread's slice so far, which is less than its quantum |
| SchedulerRuns.TicksAreAccounted | src/kernel/scheduler.c:54-55 | all ticks since boot are charged or in the current slice; nobody is charged more than a quantum per renewal; the granted quantum is at least 1 between ticks |
| SchedulerRuns.RenewedOnlyWhenSpent | src/kernel/scheduler.c:101-103 | a fresh quantum is granted only to a thread that has used up the old one exactly |
| SchedulerRuns.AlwaysFullyBudgeted | src/kernel/scheduler.c:101-103 | from the first pick on, what the running thread has used and what it is granted make up its quantum at every moment of the run |
| SchedulerRuns.WaitingStep | src/kernel/scheduler.c:73-100 | a waiting thread moves up one place when its priority is served, is dispatched from the front, and otherwise keeps its place |
| SchedulerRuns.NeverServesBelow | src/kernel/scheduler.c:91-100 | a pick never serves a priority below one with somebody waiting |
| SchedulerRuns.BoundedWaiting | src/kernel/scheduler.c:26-33 | over any run a thread moves up by exactly the number of picks that serve its priority, whatever is added or woken meanwhile |
| SchedulerRuns.DispatchedInTurn | src/kernel/scheduler.c:91-104 | a thread at place k is dispatched by the pick after exactly k picks that serve its priority |
| SchedulerRuns.PickTakesHighest | src/kernel/scheduler.c:91-100 | a pick takes the head of the highest non-empty list |
| SchedulerRuns.WakeEmptyIff | src/kernel/scheduler.c:77-90 | after the wake loop nothing is runnable exactly if nothing was and the head delta exceeds the elapsed ticks |
| SchedulerRuns.PickFailsIff | src/kernel/scheduler.c:91-104 | exactly when a pick finds nobody and dereferences NULL |
| SchedulerRuns.PickFails | src/kernel/scheduler.c:91-104 | the boot thread going to sleep with nobody else to run is such a run |
| SchedulerRuns.IdleKeepsRunning | src/kernel/main.cpp:26-30 | with one thread that never sleeps or exits no pick of any run fails |
| TcbLists.TcbList.Acyclic | src/kernel/scheduler.c:26-33 | a linked list never returns to a node |
| TcbLists.TcbList.Append | src/kernel/scheduler.c:26-33 | the thread is behind all others; next and prev stay inverse and tail stays the last node or the head |
| TcbLists.TcbList.RemoveFirst | src/kernel/scheduler.c:92-98 | the first member is taken and returned, the others stay linked, tail included |
| TcbLists.TcbList.RemoveWoken | src/kernel/scheduler.c:85-88 | the first sleeper is unlinked and the others stay doubly linked |
| TcbLists.TcbList.InsertSleeper | src/kernel/scheduler.c:59-72 | the walk links the newcomer where its delta belongs, and the ticks stored in the nodes are those of DeltaQueue.Insert |
| TcbLists.TcbList.Walk | src/kernel/scheduler.c:60-68 | the walk stops behind the last node that is due earlier, with the newcomer's ticks reduced by their deltas |
| TcbLists.TcbList.Push | src/kernel/scheduler.c:57-58 | a zombie is pushed at the front |
| TcbLists.TcbList.Pop | src/kernel/scheduler.c:109-111 | the front zombie is taken, if there is one |
| Scheduler.Scheduler.constructor | src/kernel/scheduler.c:11-25 | an empty, well linked scheduler in the model's boot state, one tick granted to main, whose priority is 3 and quantum 4, and thread ids from 1 on |
| Scheduler.Scheduler.Add | src/kernel/scheduler.c:26-33 | appends to the list of the thread's priority |
| Scheduler.Scheduler.ParkCurrent | src/kernel/scheduler.c:56-75 | files the current thread by its flags, zombie before slept before runnable |
| Scheduler.Scheduler.WakeSleepers | src/kernel/scheduler.c:77-90 | the linked lists end up as the model's wake loop leaves them, flags cleared |
| Scheduler.Scheduler.TakeTarget | src/kernel/scheduler.c:91-103 | the target and its quantum are the model's; NULL exactly if the model has none |
| Scheduler.Scheduler.Pick | src/kernel/scheduler.c:52-105 | scheduler_pick does to the linked structures what the model's pick does |
| Scheduler.Scheduler.Yield | src/kernel/arch/i686/scheduler.s:37-56 | pick first, then the target becomes current; one step of the model |
| Scheduler.Scheduler.Tick | src/kernel/arch/i686/scheduler.s:30-34 | counts both counters in 32 bits and yields when the quantum reaches zero; one step of the model |
| Scheduler.Scheduler.MarkSleep | src/kernel/scheduler.c:41-45 | zero ticks change nothing, others are stored in the current thread and flag it; one step of the model |
| Scheduler.Scheduler.MarkExit | src/kernel/scheduler.c:48-49 | flags the current thread as a zombie to be and changes nothing else of it; one step of the model |
| Scheduler.Scheduler.Sleep | src/kernel/scheduler.c:41-47 | marking and yielding are two steps of the model; thread ids are not given out |
| Scheduler.Scheduler.ExitThread | src/kernel/scheduler.c:48-51 | the thread is the first zombie and another one runs; marking and yielding are two steps of the model |
| Scheduler.Scheduler.Run | src/kernel/scheduler.c:34-37 | a new thread gets the next id, which then moves on by one in 32 bits, and is added; one step of the model |
| Scheduler.Scheduler.CleanZombie | src/kernel/scheduler.c:106-120 | the last zombie in is freed first; reports whether there was one; one step of the model |
| PagingBits.EntryIsArray | src/kernel/arch/i686/mmu.c:26-32 | the entry addresses of all pages form one array of words, the directory's one of its own |
| PagingBits.RecursiveMapping | src/kernel/arch/i686/mmu.c:26-32 | for all 32-bit addresses with a table the entry address leads through slot 1023 to exactly the word the processor uses |
| PagingBits.EntryOfEntry | src/kernel/arch/i686/mmu.c:82 | applied twice it reaches the directory entry, which is always accessible |
| PagingBits.EntryInjective | src/kernel/arch/i686/mmu.c:29-32 | two addresses have the same entry exactly if they are on the same page |
| PagingBits.FaultsDescend | src/kernel/arch/i686/mmu.c:172-190 | why nested faults end: page, table, directory, where nothing faults |
| AddressSpace.MarkedByFields | src/kernel/arch/i686/mmu.c:57-66 | the bits mmu_mark stores, read as an entry's fields |
| AddressSpace.FilledByFields | src/kernel/arch/i686/mmu.c:186-187 | the bits the fault handler stores, read as an entry's fields |
| AddressSpace.SoundMeaning | src/kernel/arch/i686/mmu.c:113-156 | soundness: no frame of the pool is lost, none is referred to twice, the stack has no duplicates |
| AddressSpace.StepSound | src/kernel/arch/i686/mmu.c:49-190 | mapping, touching with a frame in the pool, and releasing a page but the kernel's own keep it, and keep every page but the kernel's own on a frame of the pool |
| AddressSpace.ReleaseSound | src/kernel/arch/i686/mmu.c:145-151 | that a page mapped on demand releases a frame of the pool follows from that |
| AddressSpace.RunSound | src/kernel/arch/i686/mmu.c:49-190 | over any run whose faults find a frame in the pool and that does not release the kernel's own pages, frames are conserved and never shared |
| AddressSpace.ReleaseSoundIff | src/kernel/arch/i686/mmu.c:145-151 | releasing a page keeps soundness exactly if its frame is the pool's or frame 0 |
| AddressSpace.KernelReleased | src/kernel/arch/i686/mmu.c:145-151 | releasing the first page of the kernel image puts one of the image's frames on the stack |
| AddressSpace.FillsFromPoolIff | src/kernel/arch/i686/mmu.c:184-187 | a faulted page gets a frame of the pool exactly if the pool is not empty, else frame 0 |
| AddressSpace.PoolRunsOut | src/kernel/arch/i686/mmu.c:184-187 | a run that empties the pool, after which two pages share frame 0 |
| AddressSpace.MapTouchUnmap | src/kernel/arch/i686/mmu.c:139-156 | for one page: mapping, touching and unmapping a free page restores everything, the stack's order included, but one frame for a table that was missing |
| AddressSpace.MarkMeaning | src/kernel/arch/i686/mmu.c:49-72 | one page's entry changes, and no other |
| AddressSpace.MarkRangeMeaning | src/kernel/arch/i686/mmu.c:133-138 | afterwards each page of the range is present or on demand with the new protection, pages with a frame have kept it, and no other entry has changed |
| PageRanges.UnmapRangeMeaning | src/kernel/arch/i686/mmu.c:139-156 | afterwards no page of the range is mapped, and no other entry has changed, if it goes through |
| PageRanges.UnmapRangeIff | src/kernel/arch/i686/mmu.c:139-156 | it goes through exactly if each page has a table or one on demand, whether the pages were mapped, touched or neither |
| PageRanges.TouchRangeMeaning | src/kernel/arch/i686/mmu.c:184-187 | touching on-demand pages gives them the top frames of the stack one by one |
| PageRanges.MarkRangeFields | src/kernel/arch/i686/mmu.c:57-66 | a range marking leaves pages with a frame present with the new protection, and the others on demand with it |
| PageRanges.TouchIff | src/kernel/arch/i686/mmu.c:177-184 | an access goes through exactly if the page is present or on demand and its table likewise |
| PageRanges.MapTouchRange | src/kernel/arch/i686/mmu.c:184-187 | pages mapped and touched are present with the protection asked for, on the top frames below those for tables, and no other page has changed |
| PageRanges.MarkTable | src/kernel/arch/i686/mmu.c:54-56 | a table that was missing comes from the top of the stack, is open to user mode and writes, and has no other page |
| PageRanges.MissingIsAbsent | src/kernel/arch/i686/mmu.c:54-56 | the tables made for a range are as many as its directory entries that were not present |
| PageRanges.ReleaseRange | src/kernel/arch/i686/mmu.c:140-153 | unmapping, of pages touched or not, pushes the frames they have in the order of the pages, and no more |
| PageRanges.MapTouchUnmapRange | src/kernel/arch/i686/mmu.c:133-156 | mapping, touching and unmapping n free pages gives back all their frames; what remains is one frame for each table that was missing, and without such directory, tables and the stack's frames are as before |
| PageRanges.MapUnmapRange | src/kernel/arch/i686/mmu.c:133-156 | mapping n free pages and unmapping them untouched succeeds and undoes the mapping, the stack's order included, but for the tables made |
| AddressBits.EntryByIndex | src/kernel/arch/i686/mmu.c:29-32 | the entry address of the macros, by its indices, is the one the machine uses |
| AddressBits.SlotByIndex | src/kernel/arch/i686/mmu.c:24-25 | so is the address of a slot of the stack |
| PhysicalMemory.SlotWalk | src/kernel/arch/i686/mmu.c:38 | the slots of the stack in use are behind present pages |
| PhysicalMemory.EntryStore | src/kernel/arch/i686/mmu.c:57-66 | a store into a table's frame changes that entry of the address space and nothing else |
| PhysicalMemory.PageFilled | src/kernel/arch/i686/mmu.c:184-190 | entering and clearing the top frame is filling the page |
| PhysicalMemory.TableFilled | src/kernel/arch/i686/mmu.c:184-190 | the same for a directory entry gives it an empty table |
| PhysicalMemory.RoomToFree | src/kernel/arch/i686/mmu.c:125-132 | while a frame of the pool is in use the stack has a backed slot left, so mmu_free never runs off it |
| PhysicalMemory.SlotStore | src/kernel/arch/i686/mmu.c:128-129 | a store into the next slot pushes the frame |
| Paging.FaultFills | src/kernel/arch/i686/mmu.c:177-190 | what the handler's stores do to physical memory is what the fault has to do to the address space |
| Paging.ReleaseStored | src/kernel/arch/i686/mmu.c:142-150 | clearing an entry and pushing its frame is unmapping the page, and keeps all other pool pages in their frames with their contents |
| Paging.ReachIff | src/kernel/arch/i686/mmu.c:177-184 | when an access to a page, a table entry or a directory entry halts |
| Paging.DataStored | src/kernel/ld.cpp:47-51 | a write to a pool page reaches no table, no slot and no other pool page |
| Paging.Machine.Load | src/kernel/arch/i686/mmu.c:101-105 | an access faults if need be and is retried; it halts exactly if the model does, and keeps the contents of all pool pages |
| Paging.Machine.Fault | src/kernel/arch/i686/mmu.c:172-190 | the handler, itself faulting on the entry if its table is missing, creates one cleared page and keeps the contents of all pool pages |
| Paging.Machine.Store | src/kernel/ld.cpp:47-51 | what is read after a write to a page that is not the kernel's own is what was written, and all other pool pages are as they were |
| Paging.Machine.Alloc | src/kernel/arch/i686/mmu.c:113-124 | pops the top frame, 0 if there is none, and never faults |
| Paging.Machine.Free | src/kernel/arch/i686/mmu.c:125-132 | stores the frame in the next slot |
| Paging.Machine.Open | src/kernel/arch/i686/mmu.c:54-56 | a directory entry that is neither present nor on demand is put on demand |
| Paging.Machine.Mark | src/kernel/arch/i686/mmu.c:49-72 | marks the page in the address space and keeps the contents of all pool pages |
| Paging.Machine.Mmap | src/kernel/arch/i686/mmu.c:133-138 | marks the range and keeps the contents of all pool pages |
| Paging.Machine.Unmap | src/kernel/arch/i686/mmu.c:141-153 | unmaps a page other than the kernel's own, releases its frame, and keeps the contents of all other pool pages |
| Paging.Machine.Munmap | src/kernel/arch/i686/mmu.c:139-156 | unmaps and releases the range and keeps the contents of all pool pages outside it; halts exactly if a page has neither a table nor one on demand |
| FramePool.VisitedIff | src/kernel/arch/i686/mmu.c:90-97 | the rounded bounds find exactly the frames wholly inside a region, at or above kend and below 4 GiB, if and only if the region's sums do not wrap or it ends at 2^64 behind 4 GiB |
| FramePool.RoundingWraps | src/kernel/arch/i686/mmu.c:91-97 | a region of 50 bytes just below 2^64 has every frame below 4 GiB stored |
| FramePool.WindowSuffices | src/kernel/arch/i686/mmu.c:24-25 | the 4 MiB window does not run out |
| FramePool.Back | src/kernel/arch/i686/mmu.c:99-106 | before the store into a new page the stack's own top frame is popped to back it |
| FramePool.Add | src/kernel/arch/i686/mmu.c:99-108 | one more frame is the pool's, on the stack or behind it |
| FramePool.AddRegion | src/kernel/arch/i686/mmu.c:90-109 | all usable frames of the region are added, and no others |
| FramePool.Init | src/kernel/arch/i686/mmu.c:73-112 | for any map of disjoint regions the pool's frames are exactly the usable ones, each at one place, and below the window nothing is mapped but what the bootstrap code mapped |
| FramePool.ConservedFromInit | src/kernel/arch/i686/mmu.c:49-190 | from there on, over any run of mapping, faults with a frame in the pool, and releasing pages but the kernel's own, every usable frame of the memory map is at exactly one place |
| FramePool.PoolExact | src/kernel/arch/i686/mmu.c:87-110 | the stack and the frames behind its own pages are exactly the pool's frames, each once; the stack stays in its window; frame 0 is not in it |
| KernelHeap.Heap.Alloc | src/kernel/heap.c:11-25 | NULL exactly if the 32-bit sum reaches the limit, else the next block, its pages marked; all pool pages keep their frames and contents, and the pool its frames |
| KernelHeap.BlockUsable | src/kernel/heap.c:15-21 | every byte of a block is on a page that is present or on demand, and pages with a frame keep it |
| KernelHeap.BlockAlone | src/kernel/heap.c:15-21 | pages without a byte of the block are not touched |
| KernelHeap.UsedPartUsable | src/kernel/heap.c:15-24 | so is, block after block, every byte the heap has handed out, unless its sum wraps |
| KernelHeap.StepUsable | src/kernel/arch/i686/mmu.c:49-72 | other mappings and faults leave a page usable, and in its frame, unless they unmap it |
| KernelHeap.Access | src/kernel/kmalloc.c:68 | an access to a heap page, as storing a block's size makes it: the page fault it may take, the halt exactly if the page is neither present nor on demand, and the contents of all pool pages kept |
| KernelHeap.AccessUsable | src/kernel/kmalloc.c:68 | an access to a usable page succeeds, makes it present and leaves every usable page usable |
| KmallocModel.FirstFit | src/kernel/kmalloc.c:53-61 | the first node that is large enough |
| KmallocModel.BlockSizeMeaning | src/kernel/kmalloc.c:34-46 | the rounded size holds request and header exactly if the rounding does not wrap |
| KmallocModel.BlockSizeLeast | src/kernel/kmalloc.c:34-46 | the rounded size is the smallest a block can have that holds request and header, in 32 bits |
| KmallocModel.ClassMeaning | src/kernel/kmalloc.c:35-46 | blocks of 64, 512 and 1024 bytes have a list each, all larger ones the fourth |
| KmallocModel.CarveTiledIff | src/kernel/heap.c:14-23 | carving keeps the heap exactly tiled by blocks if and only if the 32-bit sum does not wrap |
| KmallocModel.BlocksDisjoint | src/kernel/heap.c:22-23 | any two blocks, headers included, are disjoint and in the heap's used part |
| KmallocModel.AllocServes | src/kernel/kmalloc.c:47-71 | the block served was free or is new, is large enough and of its class, and nobody else's state changes |
| KmallocModel.AllocServedIff | src/kernel/kmalloc.c:47-69 | a request is served exactly if a free block can take it or the heap's 32-bit sum stays below its limit |
| KmallocModel.AllocNew | src/kernel/kmalloc.c:65-69 | without such a block the new one is at the heap's end, with its size recorded and the end moved behind it |
| KmallocModel.AllocKeepsInv | src/kernel/kmalloc.c:30-72 | a request keeps tiling, classes and lists without duplicates |
| KmallocModel.ReleaseKeepsInv | src/kernel/kmalloc.c:73-93 | so does giving back a live block |
| KmallocModel.ReleaseThenAlloc | src/kernel/kmalloc.c:89-90 | kfree puts a block where kmalloc looks first: the next request it fits gets it, and the state is as before |
| KmallocModel.AllocThenRelease | src/kernel/kmalloc.c:50-51 | giving back what came from the front of a list undoes the request |
| KmallocModel.AllocMeaning | src/kernel/kmalloc.c:30-72 | a payload is behind its header, 16-aligned if the heap is, large enough, apart from all other blocks, and was not in use |
| KmallocModel.EnoughIff | src/kernel/kmalloc.c:34 | a served request has enough memory exactly if its rounding does not wrap |
| KmallocModel.RoundingWraps | src/kernel/kmalloc.c:34 | a request for 0xFFFFFFF0 bytes gets a block of 64 |
| KmallocModel.HeapWraps | src/kernel/heap.c:14 | after a request for one byte, one for 0xFFFFFFC0 is served and moves the heap's end into the first block |
| KmallocRuns.StepKeepsInv | src/kernel/kmalloc.c:30-93 | every legal request or release keeps the invariant |
| KmallocRuns.InUse | src/kernel/kmalloc.c:49-52 | of each class the blocks in use and the free ones are the blocks carved |
| KmallocRuns.SmallClassesOptimal | src/kernel/kmalloc.c:34-69 | over any run the blocks carved for a small class are as many as were in use at once at some time |
| KmallocRuns.LargeByFirstFit | src/kernel/kmalloc.c:53-69 | a large block is carved only if no free one fits, and only below the limit; otherwise exactly the first that fits is unlinked |
| KmallocRuns.SmallFromFront | src/kernel/kmalloc.c:49-52 | a small request takes the block of its size that was freed last, if there is one |
| KmallocRuns.LiveBlocksDisjoint | src/kernel/kmalloc.c:30-93 | over any run live blocks are disjoint and in the heap |
| Kmallocs.Unlink | src/kernel/kmalloc.c:57-58 | unlinking a node keeps its chain |
| Kmallocs.Push | src/kernel/kmalloc.c:89-90 | pushing a node behind the head keeps its chain |
| Kmallocs.Kmalloc.constructor | src/kernel/kmalloc.c:8-28 | four empty lists over an empty heap |
| Kmallocs.Kmalloc.FindLarge | src/kernel/kmalloc.c:54-61 | the walk ends at the first node that is large enough, with the node before it |
| Kmallocs.Kmalloc.Find | src/kernel/kmalloc.c:49-61 | the node a request takes, or none |
| Kmallocs.Kmalloc.Detach | src/kernel/kmalloc.c:51-57 | the node is off its list, all lists stay linked |
| Kmallocs.PayloadUsable | src/kernel/kmalloc.c:65-71 | as long as the heap's used part is usable, so is every byte of every block |
| Kmallocs.Kmalloc.Extend | src/kernel/kmalloc.c:65-69 | a new block with its pages marked, its size stored in its header and the page of that word present, or the halt of that store; NULL exactly if the sum reaches the limit; pool pages keep their frames and contents, and unless the heap's sum wraps there is no halt and its used part stays usable |
| Kmallocs.Kmalloc.Serve | src/kernel/kmalloc.c:47-69 | from the list or else from the heap, as the model says; pool pages keep their frames and contents, and unless the heap's sum wraps there is no halt and its used part stays usable |
| Kmallocs.Kmalloc.Alloc | src/kernel/kmalloc.c:30-72 | kmalloc on headers does what the model says, for every request, the page fault of a new header included, or halts; NULL exactly if no free block can take the request and the heap's sum reaches the limit; unless the heap's sum wraps it does not halt and keeps the invariant and every block usable; pool pages keep their frames and contents |
| Kmallocs.Kmalloc.Free | src/kernel/kmalloc.c:73-93 | kfree on headers does what the model says and keeps the invariant; NULL changes nothing |
| Kstring.CompareEqual | src/kernel/kstring.c:33-41 | zero exactly on equal strings |
| Kstring.CompareAntisymmetric | src/kernel/kstring.c:33-41 | the sign is antisymmetric |
| Kstring.CompareTransitive | src/kernel/kstring.c:33-41 | the sign is transitive |
| Kstring.PrefixSortsAfter | src/kernel/kstring.c:38-39 | the end of a string ranks above every character |
| Kstring.CompareAtDifference | src/kernel/kstring.c:34-37 | the first difference decides, by its characters as signed numbers |
| Kstring.ComparePrefix | src/kernel/kstring.c:42-53 | comparing the first characters of a string against p tells whether p is a prefix of it |
| Kstring.Kstrcmp | src/kernel/kstring.c:33-41 | compares the strings in the buffers, characters signed |
| Kstring.Kstrncmp | src/kernel/kstring.c:42-53 | is the comparison of the strings cut off after n characters |
| Kstring.Kstrlen | src/kernel/kstring.c:54-61 | the characters before the NUL |
| Kstring.Kstrncpy | src/kernel/kstring.c:19-32 | at most deslen - 1 characters and a NUL are written, nothing behind them |
| Kstring.Kmemcpy | src/kernel/kstring.c:4-11 | the bytes are copied and the others unchanged |
| Kstring.Kmemset | src/kernel/kstring.c:12-18 | the bytes are set and the others unchanged |
| Ramdisks.ClampedIff | src/drivers/ramdisk/ramdisk.c:42-45 | the clamp is right exactly if offset plus size does not exceed 64 bits |
| Ramdisks.ClampWraps | src/drivers/ramdisk/ramdisk.c:42-45 | with 512 bytes, offset 1 and size 2^64 - 1 nothing is clamped |
| Ramdisks.ChunksJoin | src/drivers/ramdisk/ramdisk.c:38-48 | however reads are split up, they deliver the content from the offset on |
| Ramdisks.SliceBytes | src/drivers/ramdisk/ramdisk.c:42-46 | byte k of what is read is byte offset + k, up to the size or the end |
| Ramdisks.ReadAfterWrite | src/drivers/ramdisk/ramdisk.c:49-59 | what was written is read back and nothing else has changed |
| Ramdisks.Ramdisk.Read | src/drivers/ramdisk/ramdisk.c:38-48 | the slice [offset, min(offset + size, length)) is put into the buffer |
| Ramdisks.Ramdisk.Write | src/drivers/ramdisk/ramdisk.c:49-59 | the slice is overwritten with the data's first bytes |
| TarArchive.OctOfOctal | src/drivers/tarfs/tarfs.c:20-27 | decoding inverts encoding, for any number of digits |
| TarArchive.OctAppend | src/drivers/tarfs/tarfs.c:20-27 | every further character counts as a digit, whatever it is, wrapping at 64 bits |
| TarArchive.HeaderFields | src/drivers/tarfs/tarfs.c:8-19 | the header of a member shows its name and length |
| TarArchive.WalkArchive | src/drivers/tarfs/tarfs.c:55-67 | the walk over an archive ends at the first member with the name, wherever the archive starts |
| TarArchive.LookupIff | src/drivers/tarfs/tarfs.c:55-63 | what lookup finds is the first of all members with the name, and nothing exactly if none has it |
| TarArchive.MemberFound | src/drivers/tarfs/tarfs.c:51-90 | for every member that is the first with its name, however many stand in front, fstat gives its length and read its bytes from the offset on |
| TarArchive.NobodyFound | src/drivers/tarfs/tarfs.c:51-90 | a name no member has is not found, but for the empty one before an end block, and has no bytes |
| TarArchive.StatIsLookup | src/drivers/tarfs/tarfs.c:51-68 | fstat is lookup in the list of members, but for the empty name |
| TarArchive.StatExactIff | src/drivers/tarfs/tarfs.c:55-66 | fstat answers for the members and nothing else exactly if the name is not empty or no blank block ends the archive |
| TarArchive.EmptyNameFound | src/drivers/tarfs/tarfs.c:55-66 | in an empty archive of one blank block fstat finds a file without a name |
| TarArchive.DataIsSlice | src/drivers/tarfs/tarfs.c:69-90 | read delivers the slice [offset, min(offset + size, length)) of the first member with the name, nothing if there is none |
| Tarfs.Oct2uint64 | src/drivers/tarfs/tarfs.c:20-27 | the accumulator loop computes the 64-bit octal value |
| Tarfs.AdvanceIsNext | src/drivers/tarfs/tarfs.c:60 | the cursor moves to the next header without overflow |
| Tarfs.ReadHeader | src/drivers/tarfs/tarfs.c:56-57 | the bytes of the header at the cursor |
| Tarfs.Search | src/drivers/tarfs/tarfs.c:55-63 | the walk finds the first header with the name, or none |
| Tarfs.Fstat | src/drivers/tarfs/tarfs.c:51-68 | true with the file's length exactly if the walk finds it; on the disk of an archive, the length of the first member with the name, wherever it stands |
| Tarfs.ReadFound | src/drivers/tarfs/tarfs.c:82-87 | the file's bytes, clamped to its length |
| Tarfs.Read | src/drivers/tarfs/tarfs.c:69-90 | the file's data is at the front of the buffer, the rest of the buffer is unchanged; on the disk of an archive, the bytes of the first member with the name from the offset on |
| VirtualFiles.FirstMount | src/kernel/vfs.cpp:22-30 | the first entry, not the longest, whose path is a prefix of the name |
| VirtualFiles.Vfs.constructor | src/kernel/vfs.cpp:9-11 | no mounts |
| VirtualFiles.Vfs.Mount | src/kernel/vfs.cpp:12-21 | the mount comes last with its path cut off after 255 bytes; it fails exactly if there are 64 |
| VirtualFiles.Vfs.Find | src/kernel/vfs.cpp:22-30 | the loop finds the first mount on a prefix of the name |
| VirtualFiles.Vfs.Resolve | src/kernel/vfs.cpp:33-35 | the mounted disk and the rest of the name |
| VirtualFiles.Vfs.Fstat | src/kernel/vfs.cpp:32-37 | fstat of the rest of the name on that disk, false without a mount; if the disks hold archives, the length of the file of that path, and 0 for a mount's own path |
| VirtualFiles.Vfs.Read | src/kernel/vfs.cpp:38-43 | the data of the rest of the name on that disk, 0 and nothing written without a mount; if the disks hold archives, the slice of the file of that path in front of the unchanged rest of the buffer |
| VirtualFiles.FileByMount | src/kernel/vfs.cpp:22-30 | lookup through the mount table is lookup in the first matching volume |
| VirtualFiles.FileAtMeaning | src/kernel/vfs.cpp:32-43 | the file of a path is in the first volume whose prefix starts it, the first member with the rest as name, and none exactly if there is no such member |
| VirtualFiles.VolumeRefines | src/kernel/vfs.cpp:32-43 | looking the rest of a path up on a disk that holds an archive is looking the path up in the member lists |
| VirtualFiles.Vfs.Mirrored | src/kernel/vfs.cpp:32-43 | so for every path, mounted or not, when the mounted disks hold the volumes' archives |
| ElfLoader.ImageMeaning | src/kernel/ld.cpp:37-62 | for disjoint segments: the file's bytes, then zeros up to memsz, and elsewhere what was there |
| ElfLoader.LastSegmentWins | src/kernel/ld.cpp:48-51 | for any segments, overlapping or not, the last one with an address decides: the file's byte, or zero behind the file's part |
| ElfLoader.NoSegmentThere | src/kernel/ld.cpp:37-62 | an address in no segment holds what was there |
| ElfLoader.OrderIndependent | src/kernel/ld.cpp:37-62 | the image does not depend on the order of the headers |
| ElfLoader.CoveredIff | src/kernel/ld.cpp:45-47 | the pages mapped cover a segment exactly if its offset in its first page leaves room |
| ElfLoader.StraddlesPage | src/kernel/ld.cpp:45-47 | 0x200 bytes at 0xF00 reach a page that is not mapped |
| ElfLoader.SegmentsUsable | src/kernel/ld.cpp:47 | every byte of a segment that the mapped pages cover is on a page usable from user mode, whatever is mapped after it |
| ElfLoader.NothingElseMapped | src/kernel/ld.cpp:47 | no page is mapped but those the headers ask for |
| ElfLoader.TranslatedInPlace | src/kernel/ld.cpp:81-87 | translation is the identity inside segments and 0 elsewhere |
| ElfLoader.LoadedTranslate | src/kernel/ld.cpp:81-87 | exactly the addresses of the loaded pages, and the one just behind each segment's, translate, and to themselves |
| ElfLoader.Loader.Fill | src/kernel/ld.cpp:48-51 | one segment's bytes and zeros are written over the memory and nothing else is |
| ElfLoader.Loader.LoadSegments | src/kernel/ld.cpp:37-62 | succeeds exactly if no loaded segment has more file bytes than memory; then disjoint segments hold the file's bytes and zeros behind them, addresses in no segment what was there, and segments and pages are as specified; in any case the pool keeps its frames and pool pages their frames and contents |
| ElfLoader.Loader.TranslateAddr | src/kernel/ld.cpp:81-87 | the search loop finds the first segment with the address |

## Left out

- Interrupts inside an operation: every call is one atomic step. Spinlocks, saved flags, and preemption inside `scheduler_run`, `kmalloc` and `heap_alloc` are not modelled; the code does not guard all of these paths.
- Register contents, ring 3 entry, interrupt tables and boot code other than what they leave for `mmu_init`.
- An exact sleep duration: sleepers may wake early, so only lateness is bounded.
- The wrap of thread identifiers after 2^32 threads, and the stacks freed with a control block.
- Scheduler.Scheduler.Run: takes a fresh control block, as tcb_init makes it; the order in which the C code links a block that another list still holds is not described.
- The TLB and `invlpg`, and the copying of kernel directory entries into `MMU_PD`; there is one address space. `mmu_clone_pagedir` is not part of this model.
- `MMU_PAGE_NOALLOC` mappings of given physical memory and `MMU_MUNMAP_NORELEASE`: their frames are not the pool's.
- Access rights: protection bits are stored and kept, but an access is only stopped by a page that is not present.
- Paging.Machine.Fault: requires a frame in the pool, which the handler does not check; `FillsFromPoolIff` and `PoolRunsOut` say what happens without.
- Paging.Machine.Load: requires the same if the page is not present.
- Paging.Machine.Store: requires the same, and a page other than the kernel's own.
- Paging.Machine.Mark: requires the same if the page's table is missing.
- Paging.Machine.Mmap: requires the same for every table that is missing.
- Paging.Machine.Unmap: requires the same for a missing table, and a page other than the kernel's own; `ReleaseSoundIff` and `KernelReleased` say what happens otherwise.
- Paging.Machine.Munmap: requires the same for every page of the range.
- Bits of an entry other than frame, present, user, writable and on demand.
- Kmallocs.Kmalloc.Alloc: requires, for a new block, frames for missing page tables and for the page of its header; the words of a header are a map by address beside the `Machine`, so a caller that overwrites a header is not described; after a wrapped sum only the list structure is kept.
- Kmallocs.Kmalloc.Extend: requires the same.
- Kmallocs.Kmalloc.Serve: requires the same.
- KernelHeap.Access: requires a frame in the pool for a page that is not present.
- FramePool.AddRegion: requires the region's sums not to wrap in the way `VisitedIff` describes.
- FramePool.Init: requires each region's sums not to wrap in the way `VisitedIff` describes, and the machine's memory to have the frames of the map.
- KernelHeap.Heap.Alloc: heaps with HEAP_ALLOC_NOALLOC mark no pages and are not modelled.
- Tarfs.Search: requires headers that are complete and whose name and length end in a NUL within the header; disks cut off inside a header leave the rest of the struct unset.
- Tarfs.Fstat: requires the same.
- Tarfs.Read: requires the same, and an offset plus size within 64 bits.
- Tarfs.ReadFound: requires an offset plus size within 64 bits, see `ClampedIff`.
- VirtualFiles.Vfs.Fstat: requires a disk with readable headers where the name leads to one.
- VirtualFiles.Vfs.Read: requires the same, and an offset plus size within 64 bits.
- Ramdisks.Ramdisk.Read: requires, for an offset on the disk, that offset plus size is within 64 bits, see `ClampedIff`; the NULL checks of devices and buffers are left out.
- Ramdisks.Ramdisk.Write: requires the same.
- Writing through tarfs and directory listing, which the driver does not support.
- ElfLoader.Loader.LoadSegments: reads headers already decoded, requires their ranges inside the file and user memory, and keeps user memory as bytes by address beside the `Machine`, so its writes take no page faults.
- Relocation and the symbol table of the loader, and the storage of `kvector`.
- Devices, probing, debug output, system calls and process creation: input and output, or thin dispatch.
