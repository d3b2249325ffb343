# Verification of the kernel and the labs

A Dafny model of the hardest parts of this repository and proofs about it: the SMP kernel under `oslabs/`
(physical memory, scheduler and semaphores, page tables, processes, file system), the 64-bit division of
its C library, and two of the labs under `minilabs/` (file recovery and coroutines).
`dafny verify dfyconfig.toml` checks everything.

Code that works in place is modelled in place: classes with the fields of the source, arrays where it has
fixed buffers, and its loops.  Each such method is proved to be a step of a state machine or to compute a
specification function; the promises of the source are theorems about those, over every run or every
input.

| file | models |
|---|---|
| `Bits`, `CountZeros`, `Division` | machine words as naturals with explicit truncation; bit counts; 64-bit division on 32-bit halves |
| `BuddyTheory`, `BuddyAllocator` | free sets of aligned blocks; the buddy allocator in place |
| `Sizes`, `PmmRuns`, `Pmm` | size classes; runs of the allocator over many CPUs; the allocator in place |
| `Scheduler`, `Semaphores`, `RoundRobin`, `Kmt` | the scheduler step; runs of threads and semaphores; fairness on one CPU; both in place |
| `BoundedBuffer` | producers and consumers as threads of that kernel |
| `Paging`, `PageTree`, `PageTables` | address and entry arithmetic; the table tree and its flat map; page tables in place |
| `Processes`, `ProcessTable`, `UserMemory` | runs of fork, exit, wait, sleep; the process table in place; tracked user pages |
| `Paths`, `FileSystem`, `RamFile`, `OpenFiles` | path resolution; directories and link counts; file buffers; open files and descriptors |
| `Sha1`, `Sha1Example`, `LongNames` | streaming SHA-1 against RFC 3174; its first example; FAT long file names |
| `Coroutines`, `Libco` | runs of the coroutine ring; the library in place |

Steps of the state machines are the sections the source runs under one lock (`buddy_lock`, `task_lock`, a
semaphore's lock, the lock of the test buffer), with two cuts inside functions: a slab refill is a locked
take and an unlocked carving, and a task may be signalled or preempted between the unlock of a semaphore
wait and its yield.  A slab fast path is not preempted, as the source relies on, and every system call is
one step.  The clock, the results of outside allocators (`pgalloc`, frames for user pages) and whether an
exited process is still on a CPU are inputs.  A panic or a halt ends a run: the model returns an outcome for
it or has no such step.

## Where the code differs from its promises

- The header of `pmm.c` promises alignment to the smallest power of two that is at least the size.  Blocks
  are aligned relative to the start of the data region, so above a page this holds exactly when that start
  is aligned too (`LiveAligned`); `LargeCanBeMisaligned` is a run in which it is not.
- It also promises at least the requested size.  The order saturates at 16, so this holds exactly up to
  256 MiB (`LiveFits`, `OrderFits`, `SaturatedOrder`).
- `INT64_MIN / -1` wraps to `INT64_MIN` (`Div`, `DivMod`).
- The comment on `kmt_sem_wait` says the lock is released after the yield.  The code releases it before; the
  proofs follow the code, and no wakeup is lost all the same (`BlockedIffQueued`, `ReturnMeansWoken`).
- A process blocked in wait should have no zombie child.  Reparenting hands zombies to init without waking
  it; `InitMissesZombie` gives the exact condition and `InitCanMissZombie` a run.
- An mmap should never map a page twice.  An explicit address is taken as it is (`uproc.c:216`), even inside
  the image or the stack, and an allocation that fails halfway keeps the pages mapped so far but not the heap
  pointer.  `Mmap` says exactly, from the arguments, the frames left and the mappings in use, when image,
  heap and stack stay apart and when addresses stay distinct; `AddressCollides` and `FailureCollides` are
  calls in which they do not.
- `vfs_link` and `vfs_unlink` accept a last parent that is no directory, and a link may repeat a name; link
  counts stay right (`LinkLinks`, `UnlinkLinks`) and the resolution of every path is given exactly
  (`LinkMeaning`, `UnlinkLookup`).  A link to an existing name stays hidden behind it (`LinkHides`), and then
  unlinking one name can change what another means (`UnlinkReveals`); without duplicates it cannot
  (`UnlinkMeaning`).
- Directory entries are read in any state (`frecov.c:211`), their names rebuilt from the long entries before
  them.  The walk ends at the first of these that is marked deleted, so it rebuilds a name exactly when none
  of its entries is marked (`ErasedWalk`), and a file whose entries are overwritten goes by its 8.3 name
  (`DeletedNameIsLost`, `DeletedExample`).

## Model

| member | source | states |
|---|---|---|
| `BuddyTheory.Canonical` | oslabs/kernel/src/pmm.c:93-128 | a coalesced set of free blocks (disjoint, in the region, no two same-order buddies below order 16) is exactly the set of maximal aligned blocks of its pages |
| `BuddyTheory.Determined` | oslabs/kernel/src/pmm.c:93-128 | hence two coalesced free sets with the same pages are equal: the lists depend only on which pages are free |
| `BuddyTheory.RunExists` | oslabs/kernel/src/pmm.c:93-107 | some listed block has at least the wanted order iff some aligned run of that many pages is free |
| `BuddyTheory.SeedNext` | oslabs/kernel/src/pmm.c:267-280 | seeding the largest block that is aligned and fits keeps the free set coalesced |
| `BuddyAllocator.BuddyByXor` | oslabs/kernel/src/pmm.c:111-118 | xor with the block size on the offset from the region start is the address of the other half of the parent block |
| `BuddyAllocator.Allocator.constructor` | oslabs/kernel/src/pmm.c:267-280 | after seeding, the lists are coalesced and cover exactly the whole region |
| `BuddyAllocator.Allocator.Alloc` | oslabs/kernel/src/pmm.c:93-107 | the free pages lose exactly the pages of the returned aligned block, the set stays coalesced, and it fails iff no aligned free run of that order exists |
| `BuddyAllocator.Allocator.Merge` | oslabs/kernel/src/pmm.c:114-126 | one turn of the coalescing loop: the buddy is unlinked iff it is free, and the held block becomes the parent |
| `BuddyAllocator.Allocator.Release` | oslabs/kernel/src/pmm.c:111-128 | the free pages gain exactly the pages of the freed block and the set is coalesced again |
| `PmmRuns.AllocFreeRestores` | oslabs/kernel/src/pmm.c:93-128 | an allocation followed by its free gives back the same lists as sets |
| `Sizes.NextPow2` | oslabs/kernel/src/pmm.c:64-68 | the loop returns the least power of two that is at least the size, for sizes up to 2^63 |
| `Sizes.SizeToClass` | oslabs/kernel/src/pmm.c:162-167 | the loop finds the size class, or -1 |
| `Sizes.SizeToOrder` | oslabs/kernel/src/pmm.c:71-77 | the loop finds the order, saturating at 16 |
| `Sizes.OrderFits` | oslabs/kernel/src/pmm.c:71-77 | the block of the chosen order holds the size iff the size is at most 4096 << 16 |
| `Sizes.SaturatedOrder` | oslabs/kernel/src/pmm.c:71-77 | one byte more than that is given a block that is too small |
| `Sizes.Saturates` | oslabs/kernel/src/pmm.c:71-77 | so is every larger size |
| `Sizes.OrderIsLeast` | oslabs/kernel/src/pmm.c:71-77 | no smaller order would do |
| `Sizes.ClassFits` | oslabs/kernel/src/pmm.c:162-167 | a cell of the chosen class holds the size and its next power of two |
| `Sizes.ClassIsLeast` | oslabs/kernel/src/pmm.c:162-167 | no smaller cell holds the size: up to 8 bytes the class is the first, above it that of the next power of two |
| `PmmRuns.StepInv` | oslabs/kernel/src/pmm.c:171-241 | every step of any CPU keeps the tiling of the region by free blocks, live blocks, slab pages and pages in transit, the ownership of every slab cell, and the descriptors |
| `PmmRuns.RunInv` | oslabs/kernel/src/pmm.c:171-241 | so they hold in every state of every run, for any number of CPUs |
| `PmmRuns.OwnListsOnly` | oslabs/kernel/src/pmm.c:192-241 | no step of a CPU touches the slab lists or the refill of another, which therefore need no lock |
| `PmmRuns.LastFreedFirst` | oslabs/kernel/src/pmm.c:192-241 | in every run the cell a CPU freed last is the one it allocates next from that class, whatever other CPUs do in between |
| `PmmRuns.LiveDisjoint` | oslabs/kernel/src/pmm.c:192-241 | no byte belongs to two live allocations |
| `PmmRuns.LiveInRegion` | oslabs/kernel/src/pmm.c:192-241 | every byte of an allocation lies in the data region |
| `PmmRuns.LiveFits` | oslabs/kernel/src/pmm.c:192-215 | an allocation holds the requested size iff that is at most 256 MiB |
| `PmmRuns.LiveAligned` | oslabs/kernel/src/pmm.c:7-8 | up to a page an allocation is aligned to the next power of two of its size; above, exactly when the start of the data region is |
| `PmmRuns.LargeCanBeMisaligned` | oslabs/kernel/src/pmm.c:7-8 | a concrete run in which 8192 bytes are handed out at an address that is not a multiple of 8192 |
| `Pmm.Allocator.constructor` | oslabs/kernel/src/pmm.c:243-283 | descriptors and data region fit into the heap, the region starts at the first page after a descriptor for every page of the heap and has every page that fits, and the initial state of the runs is established |
| `Pmm.Allocator.RefillTake` | oslabs/kernel/src/pmm.c:171-176 | the locked half of a refill is a step of the runs, and fails iff no page is free |
| `Pmm.Allocator.RefillCarve` | oslabs/kernel/src/pmm.c:177-187 | the unlocked half is a step: the page becomes a slab and all its cells are on the own list |
| `Pmm.Allocator.Refill` | oslabs/kernel/src/pmm.c:169-188 | a refill is the two steps in turn, and fails iff no page is free |
| `Pmm.ThreadCells` | oslabs/kernel/src/pmm.c:180-187 | the threading loop puts exactly the cells of the page in front of the list |
| `Pmm.Allocator.KAlloc` | oslabs/kernel/src/pmm.c:192-215 | a new live pointer of that size, reached by the pop step, by refill and pop, or by the block step, with the lists of other CPUs unchanged; the head of the own list if it has one; null, with nothing changed, iff the size is 0, or the own list is empty and no page is free, or no aligned run of that order is free |
| `Pmm.Allocator.KFree` | oslabs/kernel/src/pmm.c:217-241 | the pointer stops being live by the step its page descriptor selects: a cell becomes the head of the list of the freeing CPU, a block goes to the buddy lists; the lists of other CPUs are unchanged |
| `Pmm.FreeThenAlloc` | oslabs/kernel/src/pmm.c:192-241 | a cell freed on a CPU is what its next allocation of that class returns |
| `CountZeros.ClzCounts` | oslabs/abstract-machine/klib/src/int64.c:640-669 | the staged count of leading zeros locates the highest set bit |
| `CountZeros.CtzCounts` | oslabs/abstract-machine/klib/src/int64.c:675-709 | the staged count of trailing zeros locates the lowest set bit |
| `Division.Prepare` | oslabs/abstract-machine/klib/src/int64.c:438-604 | every special case either returns the right quotient and remainder or sets up the loop so that they are still to be found |
| `Division.SignTrick` | oslabs/abstract-machine/klib/src/int64.c:626-628 | the sign of the 64-bit difference is the comparison of remainder and divisor |
| `Division.NoOverflow` | oslabs/abstract-machine/klib/src/int64.c:626 | in the loop the remainder stays small enough for that sign to be right |
| `Division.ShiftSubtract` | oslabs/abstract-machine/klib/src/int64.c:605-634 | the shift-subtract loop ends with quotient and remainder |
| `Division.UDivMod` | oslabs/abstract-machine/klib/src/int64.c:426-634 | for all 64-bit a and b != 0: a = q*b + r and r < b |
| `Division.Div` | oslabs/abstract-machine/klib/src/int64.c:369-379 | the quotient truncated toward zero, except INT64_MIN / -1, which wraps to INT64_MIN |
| `Division.Mod` | oslabs/abstract-machine/klib/src/int64.c:393-404 | the remainder with the sign of the dividend |
| `Division.DivMod` | oslabs/abstract-machine/klib/src/int64.c:383-389 | both at once, with the wrap-around of the one overflowing case |
| `Division.TruncDivModLaw` | oslabs/abstract-machine/klib/src/int64.c:369-404 | quotient and remainder are the only pair with a = q*b + m, |m| < |b| and the sign of the dividend |
| `Scheduler.FirstSchedulableIsFirst` | oslabs/kernel/src/kmt.c:132-143 | the first schedulable task of the order is returned, and nothing iff there is none |
| `Scheduler.ScheduleInv` | oslabs/kernel/src/kmt.c:157-199 | scheduling keeps: current and previous tasks pairwise distinct, `on_cpu` set exactly for them, `cpu` naming the running CPU, every CPU on the stack of its current or previous task |
| `Scheduler.ScheduleKeeps` | oslabs/kernel/src/kmt.c:157-199 | it changes no run state, and what it makes current is runnable or the idle task |
| `Scheduler.ScheduleTakesTurn` | oslabs/kernel/src/kmt.c:157-200 | on every CPU, whatever the others run, the next task is the first in the list, behind the running thread and once round, or from the head, that is runnable, current nowhere and off the stack of every other CPU; the idle task iff there is none |
| `Scheduler.OneTurn` | oslabs/kernel/src/kmt.c:157-200 | there is only one task whose turn it is |
| `Semaphores.StepInv` | oslabs/kernel/src/kmt.c:157-311 | every step of scheduler, semaphores, creation, exit and reaping keeps the whole invariant |
| `Semaphores.RunInv` | oslabs/kernel/src/kmt.c:115-344 | so it holds in every state of every run, for any number of CPUs, tasks and semaphores |
| `Semaphores.StacksDisjoint` | oslabs/kernel/src/kmt.c:145-199 | no two CPUs ever execute on the same kernel stack |
| `Semaphores.ReapedIsOffCpu` | oslabs/kernel/src/uproc.c:338-360 | a task reaped while `on_cpu` is 0 is current on no CPU, awaits release on none, and no CPU is on its stack |
| `Semaphores.NewestFirst` | oslabs/kernel/src/kmt.c:204-240 | a CPU that runs no thread takes the one created last |
| `Semaphores.ValueCountsWaiters` | oslabs/kernel/src/kmt.c:271-311 | a negative value is minus the queue length; a non-negative one means an empty queue |
| `Semaphores.WakesInOrder` | oslabs/kernel/src/kmt.c:271-311 | the tasks woken so far followed by the queue are the tasks in order of arrival |
| `Semaphores.WaitsBounded` | oslabs/kernel/src/kmt.c:271-311 | completed waits never exceed the initial value plus the signals |
| `Semaphores.BlockedIffQueued` | oslabs/kernel/src/kmt.c:285-292 | a kernel thread is blocked iff it is queued, even if signalled or preempted between unlock and yield |
| `Semaphores.ReturnMeansWoken` | oslabs/kernel/src/kmt.c:292-293 | a wait returns only to a runnable task whose arrivals at that semaphore, at least one, have all been woken, and which is in no queue of any semaphore |
| `Semaphores.YieldEndsWindow` | oslabs/kernel/src/kmt.c:291-293 | a preemption leaves a waiting task where it is in its wait, and only its own yield takes it on |
| `Semaphores.WokenCanReturn` | oslabs/kernel/src/kmt.c:292-293 | a waiting task that runs again after its yield can return |
| `Semaphores.ZombieNeverRuns` | oslabs/kernel/src/kmt.c:157-199 | a zombie stays blocked and is made current by no step |
| `RoundRobin.TurnsAdvance` | oslabs/kernel/src/kmt.c:132-199 | on one CPU, k schedules move k places along the runnable tasks, cyclically |
| `RoundRobin.EachRunsOnce` | oslabs/kernel/src/kmt.c:132-199 | n consecutive schedules from one of n >= 2 runnable tasks run each of them exactly once |
| `Kmt.Kernel.constructor` | oslabs/kernel/src/kmt.c:322-344 | the initial state of the runs |
| `Kmt.Kernel.PickNext` | oslabs/kernel/src/kmt.c:132-143 | the wrapping walk along the list returns the first schedulable task in cyclic order within 200001 tasks |
| `Kmt.Kernel.Schedule` | oslabs/kernel/src/kmt.c:157-199 | the handler is the schedule step, and gives the CPU the task whose turn it is |
| `Kmt.Kernel.SemWait` | oslabs/kernel/src/kmt.c:271-291 | the locked section, with its walk to the end of the queue, is the wait step |
| `Kmt.Kernel.SemSignal` | oslabs/kernel/src/kmt.c:299-311 | the locked section is the signal step |
| `Kmt.Kernel.Create` | oslabs/kernel/src/kmt.c:203-236 | creating or registering a task is the create step |
| `Kmt.Kernel.Unlink` | oslabs/kernel/src/kmt.c:243-251 | the walk along the links removes exactly the first occurrence of the task |
| `Kmt.Kernel.Reap` | oslabs/kernel/src/uproc.c:345-354 | unlinking a zombie that is off every CPU is the reap step |
| `BoundedBuffer.StepInv` | oslabs/kernel/src/kmt.c:401-428 | every step of any producer, any consumer or the rest of the kernel keeps the accounts and the contents of the buffer |
| `BoundedBuffer.Room` | oslabs/kernel/src/kmt.c:401-428 | the semaphore bounds leave room for every producer, and an item for every consumer, past its wait |
| `BoundedBuffer.BufferSafe` | oslabs/kernel/src/kmt.c:401-480 | in every state of every run 0 <= used <= 8, neither flag is set, consumed <= produced, and the items taken are the items produced, in order |
| `Paging.IndexIsLow` | oslabs/abstract-machine/am/src/x86/qemu/vme.c:49-51 | the masked and shifted index is the low part of the entry number of the page at that level, in both configurations |
| `Paging.SameIndices` | oslabs/abstract-machine/am/src/x86/qemu/vme.c:49-51 | two addresses agree in their top entry and all indices iff they share a page |
| `Paging.BaseOfIsBase` | oslabs/abstract-machine/am/src/x86/qemu/vme.c:53-55 | masking an entry gives the page it points to |
| `Paging.EntryParts` | oslabs/abstract-machine/am/src/x86/qemu/vme.c:69 | flags or-ed into a page address can be told apart from it |
| `Paging.UserEntries` | oslabs/abstract-machine/am/src/x86/qemu/vme.c:24-34 | user addresses never go through a kernel entry |
| `Paging.KernelEntries` | oslabs/abstract-machine/am/src/x86/qemu/vme.c:23-33 | the first-level entries shared with the kernel are exactly those of its address areas |
| `PageTree.WalkIsFlat` | oslabs/abstract-machine/am/src/x86/qemu/vme.c:57-75 | the hardware walk from the root gives the value of the flat map on every page |
| `PageTree.WriteFrom` | oslabs/abstract-machine/am/src/x86/qemu/vme.c:57-75 | whether a user write gets through the hardware walk is decided by the last entry alone |
| `PageTree.GrowKeeps` | oslabs/abstract-machine/am/src/x86/qemu/vme.c:67-69 | linking a fresh zeroed table below an absent entry keeps the tree and changes no translation |
| `PageTree.SetLeaf` | oslabs/abstract-machine/am/src/x86/qemu/vme.c:141-156 | writing a last-level entry changes the translation of that page only |
| `PageTree.BeforeNext` | oslabs/abstract-machine/am/src/x86/qemu/vme.c:77-84 | the tables below one more entry are a new, disjoint part of the subtree |
| `PageTables.SlotsOfPages` | oslabs/abstract-machine/am/src/x86/qemu/vme.c:57-75 | walks give two addresses the same slot iff they share a page |
| `PageTables.AddrSpace.constructor` | oslabs/abstract-machine/am/src/x86/qemu/vme.c:117-135 | a new address space shares the kernel entries and translates no user page |
| `PageTables.CopyKernel` | oslabs/abstract-machine/am/src/x86/qemu/vme.c:120-130 | the copy loops take exactly the kernel entries |
| `PageTables.AddrSpace.PtWalk` | oslabs/abstract-machine/am/src/x86/qemu/vme.c:57-75 | it returns the slot of the page and keeps every translation and every table of others; it takes exactly the tables it lacks from the free pages, and fails iff they are too few |
| `PageTables.AddrSpace.Map` | oslabs/abstract-machine/am/src/x86/qemu/vme.c:141-156 | done, refused or out of memory exactly by range, alignment, the missing tables and whether it maps an unmapped or unmaps a mapped page; when done exactly the translation of that page changes, otherwise none |
| `PageTables.MappedTranslates` | oslabs/abstract-machine/am/src/x86/qemu/vme.c:141-156 | after a successful map the hardware walk finds the page given, open to user code, and lets a write through iff that was asked for |
| `PageTables.AddrSpace.Teardown` | oslabs/abstract-machine/am/src/x86/qemu/vme.c:77-87 | every table of the subtree is freed exactly once, and only while still in use |
| `PageTables.AddrSpace.Unprotect` | oslabs/abstract-machine/am/src/x86/qemu/vme.c:137-139 | the pages freed are exactly the tables of this address space, each once: no kernel table, no data page |
| `Processes.StepInv` | oslabs/kernel/src/uproc.c:233-497 | fork, exit, wait, sleep and tick keep the invariant of the process table |
| `Processes.RunInv` | oslabs/kernel/src/uproc.c:233-497 | so it holds in every state of every run |
| `Processes.Family` | oslabs/kernel/src/uproc.c:303-360 | every process but init has a live parent in the table, its parent chain reaches init, and one other than init that is blocked in wait has no zombie child |
| `Processes.ChainToInit` | oslabs/kernel/src/uproc.c:303-308 | the parent chain of every process reaches init through live processes |
| `Processes.ReapedOnce` | oslabs/kernel/src/uproc.c:338-360 | in every run no process is reaped twice |
| `Processes.ReapedStatus` | oslabs/kernel/src/uproc.c:338-360 | every process reaped in a run has exited and is gone, and the status handed out is the one it exited with |
| `Processes.ReapedByParent` | oslabs/kernel/src/uproc.c:338-360 | every reap in a run happened in a step in which the reaper was the parent of that zombie |
| `Processes.ForkedBy` | oslabs/kernel/src/uproc.c:233-308 | in every run the parent of a forked process is the one that forked it, until that exits, and init after |
| `Processes.WaitOutcome` | oslabs/kernel/src/uproc.c:338-428 | a wait reaps iff some child can be reaped, is called again iff there are children but none can be, and blocks iff none of them has even exited |
| `Processes.ReapMovesLast` | oslabs/kernel/src/uproc.c:338-360 | the table entry of a reaped process is taken by the last one, and no other moves |
| `Processes.TickWakes` | oslabs/kernel/src/uproc.c:486-497 | a tick leaves a blocked sleeper blocked iff its deadline is still to come, and changes nothing else |
| `Processes.RunsIffWoken` | oslabs/kernel/src/uproc.c:430-497 | in every run a process inside a sleep can run iff a tick at its deadline or later has come since |
| `Processes.SleepReturns` | oslabs/kernel/src/uproc.c:430-497 | in every run a sleep is not called again before such a tick, returns iff it is called at its deadline or later, and does return then if the clock does not go backwards |
| `Processes.ExitIsFinal` | oslabs/kernel/src/uproc.c:310-327 | an exit status is never overwritten |
| `Processes.ZombieStays` | oslabs/kernel/src/uproc.c:310-327 | a zombie is never made runnable again, not even by the tick |
| `Processes.InitMissesZombie` | oslabs/kernel/src/uproc.c:303-327 | an exit leaves init blocked beside a zombie child iff the exiting process had a zombie child and was not a child of init |
| `Processes.OnlyExitMisses` | oslabs/kernel/src/uproc.c:284-360 | no step but an exit leaves init blocked in wait beside a zombie child |
| `Processes.InitCanMissZombie` | oslabs/kernel/src/uproc.c:303-327 | a concrete run in which that happens |
| `ProcessTable.Table.Fork` | oslabs/kernel/src/uproc.c:233-263 | the new process is the fork step |
| `ProcessTable.Table.ReparentChildren` | oslabs/kernel/src/uproc.c:303-308 | the loop gives exactly the children of the dead process to init |
| `ProcessTable.Table.Exit` | oslabs/kernel/src/uproc.c:310-327 | the assignments are the exit step |
| `ProcessTable.Table.TryReap` | oslabs/kernel/src/uproc.c:338-360 | the first exited child off every CPU is reaped; otherwise the answer tells zombie children, children and none apart |
| `ProcessTable.Table.Wait` | oslabs/kernel/src/uproc.c:410-428 | the wait call is the wait step; the answer names the process it reaped with its status, no child, or nothing, and the call is rewound iff it has no answer |
| `ProcessTable.Table.Sleep` | oslabs/kernel/src/uproc.c:430-445 | the sleep call is the sleep step, and returns iff it was begun and its deadline has come |
| `ProcessTable.Table.Tick` | oslabs/kernel/src/uproc.c:486-497 | the loop is the tick step: exactly the sleepers whose deadline has come become runnable |
| `UserMemory.Memory.UpMap` | oslabs/kernel/src/uproc.c:73-77 | one more mapping to a fresh frame, unless 1024 are in use or the address is no user address; frames stay pairwise disjoint |
| `UserMemory.Memory.LoadImage` | oslabs/kernel/src/uproc.c:121-144 | image, slack and stack in fresh frames with the bytes of the image and zeros, readable and writable, covering the image and its slack, laid out; it succeeds iff they fit the frames left and the 1024 mappings |
| `UserMemory.Memory.Spawn` | oslabs/kernel/src/uproc.c:121-144 | a process made and loaded is laid out, and all others stay so |
| `UserMemory.ImageByte` | oslabs/kernel/src/uproc.c:126-135 | every byte of the image is in its place and zeros follow it |
| `UserMemory.Memory.Mmap` | oslabs/kernel/src/uproc.c:209-230 | zeroed pages in fresh frames from the rounded address, exactly as many as asked for or as frames, table and user space allow; a success covers the length asked for and no page more, and only it moves the heap; a laid out process stays so iff the call is refused, can map nothing, or is at the heap with everything it asks for available; addresses stay distinct iff none of the pages was mapped |
| `UserMemory.AmProtGrants` | oslabs/kernel/src/uproc.c:211-214 | a page can be written iff that was asked for, and read unless only writing was |
| `UserMemory.Memory.Fork` | oslabs/kernel/src/uproc.c:233-244 | the child has equal contents at equal addresses in fresh frames, and nothing else changes; it succeeds iff there are frames for every mapping |
| `UserMemory.Memory.FreeMem` | oslabs/kernel/src/uproc.c:112-117 | each tracked frame of the process is freed exactly once, and no other |
| `UserMemory.LayoutDistinct` | oslabs/kernel/src/uproc.c:121-144 | with at most 1024 mappings, image, heap and stack addresses are distinct |
| `UserMemory.LoadLaysOut` | oslabs/kernel/src/uproc.c:121-144 | a loaded image has that layout |
| `UserMemory.ForkLaysOut` | oslabs/kernel/src/uproc.c:233-244 | so does a fork of a process that has it |
| `UserMemory.HeapGrows` | oslabs/kernel/src/uproc.c:209-230 | mapping more pages at a laid out heap keeps the layout iff there are none or the heap pointer moves past them |
| `UserMemory.MmapKeeps` | oslabs/kernel/src/uproc.c:209-230 | any mmap keeps the layout iff it is tidy as above, and distinct addresses iff it hits no mapped page |
| `UserMemory.AllDistinct` | oslabs/kernel/src/uproc.c:121-244 | while every process is laid out, no process has an address mapped twice |
| `UserMemory.FailureCollides` | oslabs/kernel/src/uproc.c:216-228 | in any state of laid out processes, an mmap of two pages with one frame left and an mmap of one page after it map the same address twice |
| `UserMemory.AddressCollides` | oslabs/kernel/src/uproc.c:216-228 | an mmap of one byte at the start of a loaded image succeeds and maps that address twice |
| `Paths.BestIsLongest` | oslabs/kernel/src/vfs.c:105-117 | the chosen mount is the longest whose mount point is a prefix of the path |
| `Paths.CompsJoin` | oslabs/kernel/src/vfs.c:94-102 | splitting a path undoes joining names of up to 27 characters with slashes |
| `Paths.CompsCut` | oslabs/kernel/src/vfs.c:94-102 | a longer component is cut after 27 characters, and what follows counts as the next |
| `Paths.MountedPath` | oslabs/kernel/src/vfs.c:104-130 | a path that is a mount point, or goes on from it with a slash, means what its rest means from the root of the longest such mount |
| `Paths.RootPath` | oslabs/kernel/src/vfs.c:104-130 | a path on no other mount is followed from the root |
| `Paths.NameiOfParent` | oslabs/kernel/src/vfs.c:119-147 | a path names what its parent holds under its last component |
| `Paths.CreateResolves` | oslabs/kernel/src/vfs.c:274-283 | after a successful create or mkdir the path names the new inode, and no path that resolved changes its meaning |
| `FileSystem.LinkMeaning` | oslabs/kernel/src/vfs.c:385-395 | a link gives the path a meaning iff it had none and its parent is a directory, and changes the meaning of no path that resolved |
| `FileSystem.UnlinkLookup` | oslabs/kernel/src/vfs.c:397-409 | what every lookup finds after an unlink, with duplicates and the swap of the last entry taken into account |
| `FileSystem.UnlinkMeaning` | oslabs/kernel/src/vfs.c:397-409 | without duplicates an unlink takes the meaning from exactly the paths through that entry, and changes no other |
| `FileSystem.UnlinkUncovers` | oslabs/kernel/src/vfs.c:397-409 | with duplicates a path into the directory means what the remaining entries say, the moved one first |
| `FileSystem.LinkHides` | oslabs/kernel/src/vfs.c:385-395 | concretely: a link to an existing name succeeds, counts, and leaves the name with its old meaning |
| `FileSystem.UnlinkReveals` | oslabs/kernel/src/vfs.c:397-409 | concretely: unlinking another name after that changes what the duplicated name means |
| `FileSystem.NextComp` | oslabs/kernel/src/vfs.c:94-102 | the loop splits off the next component, at most 27 characters long |
| `FileSystem.DirLookup` | oslabs/kernel/src/vfs.c:79-84 | the loop finds the first entry of that name, in a directory only |
| `FileSystem.ResolveMount` | oslabs/kernel/src/vfs.c:105-117 | the loop finds the mount and the rest of the path |
| `FileSystem.NameiLoop` | oslabs/kernel/src/vfs.c:119-130 | the loop follows the components of the path |
| `FileSystem.NameiParentLoop` | oslabs/kernel/src/vfs.c:133-147 | the loop follows all components but the last, which it returns |
| `FileSystem.CreateLinks` | oslabs/kernel/src/vfs.c:61-91 | a new inode with one entry keeps link counts equal to entry counts |
| `FileSystem.LinkLinks` | oslabs/kernel/src/vfs.c:385-395 | so does a link |
| `FileSystem.UnlinkLinks` | oslabs/kernel/src/vfs.c:397-409 | so does an unlink with its swap of entries |
| `FileSystem.Tree.constructor` | oslabs/kernel/src/vfs.c:231-272 | the three mounts, with the directories of the root, the programs in `/bin` in order, four device and three proc files, and the invariants |
| `FileSystem.BootPaths` | oslabs/kernel/src/vfs.c:231-272 | after initialisation every device and proc file is found at its path, and `/dev` and `/proc` mean the mounted roots and not the directories of that name |
| `FileSystem.ProgramFile` | oslabs/kernel/src/vfs.c:244-253 | and every program whose name one component can hold is found in `/bin`, the first of several of the same name |
| `FileSystem.Tree.Make` | oslabs/kernel/src/vfs.c:274-283 | the creating part of open: an error iff the path resolves or has no parent directory, a panic iff that directory is full, and otherwise the path names the new inode |
| `FileSystem.Tree.LinkPath` | oslabs/kernel/src/vfs.c:385-395 | an error iff the source does not resolve or is a directory, or the target has no parent; a panic iff that parent is full; otherwise one more entry and link |
| `FileSystem.Tree.UnlinkPath` | oslabs/kernel/src/vfs.c:397-409 | the first entry of that name is removed and its inode has one link less; it fails iff there is none |
| `RamFile.ChunksInOrder` | oslabs/kernel/src/vfs.c:311-315 | reads of any sizes yield the content once and in order |
| `RamFile.WriteThenRead` | oslabs/kernel/src/vfs.c:298-332 | what was written is read back in any chunks |
| `RamFile.Inode.Grow` | oslabs/kernel/src/vfs.c:69-77 | doubling terminates with enough room and keeps the content |
| `RamFile.Cursor.Read` | oslabs/kernel/src/vfs.c:311-315 | the bytes at the shared offset, which advances by their number |
| `RamFile.Cursor.Write` | oslabs/kernel/src/vfs.c:324-330 | exactly the written range changes, and the size becomes the larger of the old size and the end of the write |
| `RamFile.Cursor.Seek` | oslabs/kernel/src/vfs.c:342-354 | the new offset from start, cursor or end, or -1 and no change |
| `OpenFiles.NoStaleDescriptor` | oslabs/kernel/src/vfs.c:150-178 | every descriptor refers to an entry that has references and a file, so it is never recycled under it |
| `OpenFiles.Files.FAlloc` | oslabs/kernel/src/vfs.c:150-160 | the first entry without references |
| `OpenFiles.Files.Open` | oslabs/kernel/src/vfs.c:287-295 | the first unused entry, which no slot referred to, in the first free slot; it fails iff there is no such entry or slot; reference counts stay equal to slot counts |
| `OpenFiles.Files.Close` | oslabs/kernel/src/vfs.c:334-340 | one slot and one reference less; the last one drops the file, and no other entry changes |
| `OpenFiles.Files.Dup` | oslabs/kernel/src/vfs.c:366-373 | the first free slot for the same entry and one reference more; it fails iff the descriptor is not open or no slot is free |
| `OpenFiles.Files.Fork` | oslabs/kernel/src/vfs.c:419-425 | the child shares every slot of its parent, with the references counted and nothing else changed in the table |
| `OpenFiles.Files.CloseAll` | oslabs/kernel/src/vfs.c:427-430 | no slot of the process is left; references went down, and exactly the entries whose last one went lost their file |
| `OpenFiles.Files.SetupStdio` | oslabs/kernel/src/vfs.c:433-443 | descriptors 0 to 2, or as many as there are unused entries, each on an entry of its own for the terminal, the first to read and the others to write; no entry in use changes |
| `Sha1.Block` | minilabs/frecov/frecov.c:132-149 | the loops compute the compression function of section 6.1 of RFC 3174 |
| `Sha1.ChChooses` | minilabs/frecov/frecov.c:141 | on every part of the word the first round function takes its second argument where the first has ones, and the third where it has zeros |
| `Sha1.MajAgrees` | minilabs/frecov/frecov.c:143 | where two of its arguments agree, the majority function is what they are |
| `Sha1.ParityFlips` | minilabs/frecov/frecov.c:142 | where two of its arguments agree, the parity function is the third, and where they differ its complement |
| `Sha1.RotateBits` | minilabs/frecov/frecov.c:130 | the rotations move every bit round the word by their amount |
| `Sha1.RoundConstants` | minilabs/frecov/frecov.c:141-144 | the constants are the integer parts of 2^30 times the square roots of 2, 3, 5 and 10 |
| `Sha1.WordValue` | minilabs/frecov/frecov.c:134-135 | a word is the number its four bytes spell, most significant first |
| `Sha1.LengthSpelled` | minilabs/frecov/frecov.c:169-170 | the length field holds the eight digits that spell the length in bits, most significant first |
| `Sha1.DigestWords` | minilabs/frecov/frecov.c:171-176 | the digest is the five words, one after the other |
| `Sha1Example.Abc` | minilabs/frecov/frecov.c:132-177 | the digest of "abc" is that of section 7.3 of RFC 3174, through padding, schedule and all 80 rounds |
| `Sha1.FoldBlock` | minilabs/frecov/frecov.c:155-161 | one more block is one more compression |
| `Sha1.WordOfBytes` | minilabs/frecov/frecov.c:171-176 | the bytes of the digest determine its words |
| `Sha1.Context.Update` | minilabs/frecov/frecov.c:155-161 | bytes are folded block by block with `sha1_block`, the rest waits in the buffer |
| `Sha1.Context.PadZeros` | minilabs/frecov/frecov.c:167 | the padding loop terminates 8 bytes short of a block boundary |
| `Sha1.Context.Final` | minilabs/frecov/frecov.c:162-177 | the digest of the fold over the message padded as in section 4 of RFC 3174 |
| `Sha1.HashParts` | minilabs/frecov/frecov.c:151-177 | for any split of a message under 2^61 bytes into updates, the loops of the source, `sha1_block` included, return its SHA-1 |
| `LongNames.WalkFits` | minilabs/frecov/frecov.c:220-232 | for any directory region the walk yields at most 416 characters |
| `LongNames.WalkInverts` | minilabs/frecov/frecov.c:220-232 | on entries laid out for an ASCII name the walk rebuilds that name |
| `LongNames.DecodeEncode` | minilabs/frecov/frecov.c:209-262 | decoding inverts encoding for every ASCII name of 5 to 255 characters that ends in ".bmp", whatever stands around the entries |
| `LongNames.DecodeFile` | minilabs/frecov/frecov.c:209-262 | a file entry laid out field by field for a cluster and a size gives back that cluster and that size with the name |
| `LongNames.FileTests` | minilabs/frecov/frecov.c:211-217 | the bit tests on the attributes and the bounds on cluster and size |
| `LongNames.ErasedWalk` | minilabs/frecov/frecov.c:220-232 | when entries are marked deleted the walk yields the part of the name before the nearest of them, and the whole name iff none is marked |
| `LongNames.DeletedGoesByShortName` | minilabs/frecov/frecov.c:220-250 | if the nearest entry before the file entry is marked deleted, the file goes by its 8.3 name |
| `LongNames.ErasedEncoding` | minilabs/frecov/frecov.c:209-262 | an encoded name with its entries overwritten yields nothing, whatever stands around them |
| `LongNames.DeletedNameIsLost` | minilabs/frecov/frecov.c:209-262 | so a deleted file is never recovered under its ASCII long name |
| `LongNames.DeletedExample` | minilabs/frecov/frecov.c:209-262 | concretely: a deleted "photo.bmp" is recovered under another name |
| `LongNames.LfnChars` | minilabs/frecov/frecov.c:191-203 | the loops append the characters of one entry up to its terminator |
| `LongNames.TextIs` | minilabs/frecov/frecov.c:191-203 | for any 13 code units the text is everything before the first 0 or 0xFFFF, with a question mark for what is not ASCII |
| `LongNames.WalkBack` | minilabs/frecov/frecov.c:223-232 | the walk fills the buffer with the text of the long entries, nearest first |
| `LongNames.ReadBmpEntry` | minilabs/frecov/frecov.c:209-262 | a name, cluster and size are recovered iff the entry is a file and its name ends in ".bmp" |
| `Coroutines.StepInv` | minilabs/libco/co.c:97-196 | starting, yielding, waiting, collecting and returning keep the invariant of the ring |
| `Coroutines.RunInv` | minilabs/libco/co.c:61-196 | in every state of every run the ring holds main and all started, uncollected coroutines once, and every running one but the current has a saved context |
| `Coroutines.SomethingRunnable` | minilabs/libco/co.c:121-137 | the deadlock exit is unreachable while main is in the ring |
| `Coroutines.NeverStuck` | minilabs/libco/co.c:113-148 | in every run a schedule finds a coroutine, and what it resumes has a saved context |
| `Coroutines.CollectedIsGone` | minilabs/libco/co.c:186-195 | what is collected is not current, not resumable and not waited for |
| `Coroutines.OverHasReturned` | minilabs/libco/co.c:97-196 | in every run only what has returned from its function is dead, and only that is collected |
| `Coroutines.WaitEndsWithCollection` | minilabs/libco/co.c:176-196 | in every run, whatever a coroutine does after its wait for another, that one has been collected by then |
| `Coroutines.StartedInOrder` | minilabs/libco/co.c:150-162 | in every run the ring keeps coroutines in the order in which they were started |
| `Coroutines.FirstLiveIsNext` | minilabs/libco/co.c:113-137 | a coroutine gives way to the first live one behind it in the ring |
| `Coroutines.ChosenSoon` | minilabs/libco/co.c:121-127 | while no coroutine is started or collected, every live one runs within as many switches, by yield, wait or return, as it is places away in the ring |
| `Coroutines.EveryTurnComes` | minilabs/libco/co.c:113-148 | in every run, whatever is live when the ring becomes fixed has run once co_count - 1 switches have passed |
| `Libco.Library.constructor` | minilabs/libco/co.c:61-69 | the initial state of the runs |
| `Libco.Library.Search` | minilabs/libco/co.c:113-137 | the two loops find the next live coroutine of the ring |
| `Libco.Library.Start` | minilabs/libco/co.c:150-162 | the new coroutine is the start step |
| `Libco.Library.Yield` | minilabs/libco/co.c:164-174 | saving and scheduling are the yield step |
| `Libco.Library.Return` | minilabs/libco/co.c:97-107 | the end of the entry function is the return step |
| `Libco.ShiftDown` | minilabs/libco/co.c:190-192 | the slots behind the removed one move down by one |
| `Libco.Library.WaitTurn` | minilabs/libco/co.c:176-196 | one turn of the wait collects the awaited coroutine or yields, as a step |

## Left out

- Sizes.NextPow2: for sizes above 2^63 the loop of the source does not end, so the method requires at most 2^63.
- Pmm.Allocator.constructor: requires a heap that holds its own descriptors; on a smaller one the unsigned page count of the source wraps.
- Pmm.Allocator.KAlloc: one call without interleaving and with a size up to 2^63; interleavings with other CPUs are those of the steps in `PmmRuns`.
- RamFile.Cursor.Write: offsets are bounded by 2^30, below which neither an `int` offset nor a doubled capacity overflows; bytes in a gap left by seeking past the end are unspecified.
- PageTables.AddrSpace.PtWalk: only walks for user addresses; the walks that build the kernel's own tables at boot are not modelled.
- UserMemory.Memory.LoadImage: a failed allocation or a full mapping table is a panic, after which nothing is claimed but that frames stay disjoint and every address is a user address.
- FileSystem.Tree.Make: the flags and the later steps of `vfs_open` are not part of it; the descriptor is that of `OpenFiles`.
- `sys_kill` and `sys_exec`: the first is written for one CPU, the second leaks its old pages by design.
- Interrupt masks (`push_off`, `pop_off`, `ncli`, `intena`): lock sections are atomic steps instead.
- The mutual exclusion of spin locks themselves, and the counter test that relies on it.
- Native AbstractMachine code, context switching, boot code, interrupts and port I/O: foreign machine state.
- Device and proc files, the terminal, frame buffer, audio and games: I/O only.
- `vfs_chdir` and `cwd`: path resolution never uses them.
- Recovering picture data, guessing its size and scanning clusters in `frecov.c`; checksums of short names.
- `pstree`, `sperf`, `crepl`: mostly plumbing to the operating system.
- Liveness beyond the two fairness results (round robin on one CPU, the coroutine ring).
