# A verified model of the Pintos kernel

Pintos is a small teaching kernel for 32-bit x86 machines. This project models the algorithms at its
core in Dafny and proves what they are for: that priority donation keeps every thread's effective
priority right, that wake-ups are not lost, that allocators never hand out the same memory twice, that
removed files keep their sectors until the last close, that `list_sort` is a stable sort, that 64-bit
division built from a 64-by-32-bit instruction is division, and so on.

`dafny verify dfyconfig.toml` checks the whole project.

## How it is built

Each part has a *specification* in functions over values, with theorems about it, and, where the source
updates state in place, a class or array methods proved to do what those functions say.

| files | part of the kernel |
|---|---|
| `sched_state`, `sched_donation`, `sched_queue`, `sched_invariant`, `sched_steps`, `sched_locks`, `sched_acquire`, `sched_runs`, `sched_theorems`, `sched_effects`, `sched_fifo`, `sched_hang`, `sched_overtake`, `sched_stuck`, `sched_kernel` | threads, semaphores, locks, priority donation |
| `list_spec`, `list_links` | the doubly linked list and its merge sort |
| `bits`, `bitmap`, `palloc`, `malloc`, `malloc_kernel` | bitmap, page allocator, block allocator |
| `fs_state`, `fs_ownership`, `fs_leaks`, `fs_effects`, `fs_kernel`, `inode_io`, `directory`, `fs_directory`, `cstrings` | the file system |
| `arithmetic` | 64-bit division |
| `hash_spec`, `hash_table`, `heap_sort` | hash table, heap sort, binary search |
| `mlfqs` | the 4.4BSD scheduler's fixed-point arithmetic |
| `page_table`, `elf_load` | page tables and ELF segments |
| `ustar`, `ustar_format`, `ustar_code` | archive headers |

**Scheduler.** A region the kernel runs with interrupts off is one step of a state machine over threads,
semaphores and locks (`SchedRuns.Step`). A thread that wakes up inside `sema_down` or `lock_acquire`
retests in a step of its own, and so does the `thread_max_yield` that follows `sema_up`, `thread_create`
and `thread_set_priority` with interrupts on again. `SchedRuns.RunKeepsInv` says that every run keeps
`SchedInvariant.Inv`: one thread runs; ready threads are on the ready list once, in order of priority;
sleepers are on one waiter list; a non-empty waiter list has value at most the number of woken threads yet
to retest; a lock has value 0 or 1 and a holder exactly when 0; every donor sleeps on a lock its recipient
holds; nobody waits in a circle; and every thread's priority is the largest of its base and its donors'
priorities. The lemmas of `SchedEffects` say of every step which waiter it wakes, who holds what
afterwards, who lives and who runs, without naming the functions that compute it. `SchedRuns.HighestRuns`
says when the running thread has the highest priority: always, but while a `thread_max_yield` is due.

A contended `lock_acquire` is a step only if every thread up the chain of holders sleeps on the lock it
requires. That condition is needed. `SchedAcquire.AcquireHangsIff` says that otherwise the loop of
`thread_donate_priority` may run forever, and exactly when; `SchedHang.AcquireCanHang` gives a run,
without any deadlock, that leads there: `lock_release` clears the holder before the woken waiter clears
`required_lock`. `SchedAcquire.AcquireDonorsBlocked` says that where the loop ends, the donors are all
asleep afterwards exactly when the chain was, and `SchedStuck.DonationOutlivesLock` gives a run in which
it was not, and a thread is left with a donated priority for good.

First come, first served among threads of one priority does not hold either: `thread_reset_priority` puts
a ready thread behind its equals even if its priority stays as it is. `SchedOvertake.EqualFallsBehind`
gives a run, and `SchedFifo.FirstComeFirstServed` the exact condition.

**Allocators.** `malloc` runs interleave with other users of the page allocator. The heap's invariant
(`Malloc.Inv`) ties the free lists, the counts in the arenas and the page bitmap together. The ledgers
(`Malloc.OwnedAfter`, `Palloc.LedgerAfter`) say what callers own going by the interface alone.
`Malloc.AllocateNullIff` says exactly when `malloc` has to fail, and `Malloc.FreeUndoesMalloc` that `free`
undoes it.

**File system.** A state holds the free map, the inodes on disk and in memory, the names and the open
files. An inode is an *owner* if it is named, open, or one of the system's two. That every marked sector
has an owner is false, because `filesys_create` keeps the data sectors when `dir_add` fails:
`FsLeaks.LeaksIff` gives the exact condition and `FsLeaks.CreateTwiceLeaks` a run. The lemmas of
`FsEffects` say what each call does to names, counts, files and sectors.

**Numbers.** Integers are unbounded; where the source's width matters it is written out (`Mlfqs.Wrap`,
`ElfLoad.Add`, `Malloc.PageCnt`, the 32- and 64-bit types of `Arithmetic`). Bit operators are defined on
the binary digits of numbers (`bits.dfy`). Memory that may run out, a device, and which thread an
interrupt finds running are parameters of the operations.

Where the code and its comments disagree the model follows the code: `realloc` on failure leaves the old
block allocated (`Malloc.ResizeCorrect`); `malloc` does not return "at least SIZE bytes" for the eleven
largest sizes (`Malloc.EnoughIff`); a read of a directory can be short before its end, and `dir_add` then
overwrites an entry (`Directory.ShortReadsHarmlessIff`); the list sort of the comment in `list.c` allows
any order, the code's is stable (`ListSpec.MergeSortCorrect`).

## Model

| member | source | states |
|---|---|---|
| SchedDonation.WalkStopsIff | src/threads/thread.c:492-527 | the donation loop ends iff every required lock on the chain has a holder and no thread is met twice |
| SchedDonation.ChainAcyclic | src/threads/thread.c:498-525 | a chain that ends never returns to a thread it has left |
| SchedDonation.ChainFiniteIff | src/threads/thread.c:498-525 | a chain of holders ends iff all its locks are held and no thread is met twice, by counting the threads that require a lock |
| SchedDonation.DonateIsWalk | src/threads/thread.c:492-527 | the whole function is as many turns of the loop as the chain is long, then a reset of the last thread |
| SchedDonation.RenewIsEffective | src/threads/thread.c:448-463 | taking the front donor of a sorted list gives the largest of base and all donors' priorities |
| SchedDonation.PassMovesDefect | src/threads/thread.c:498-525 | one turn moves the one thread whose priority equation may fail one hop up the chain |
| SchedDonation.RemoveRenewedLinked | src/threads/thread.c:531-542 | removing a donor keeps all donation lists sorted, duplicate-free and linked both ways, though its priority just changed |
| SchedDonation.DonateRestoresFixpoint | src/threads/thread.c:492-527 | if all threads but one have the largest of base and donors' priorities, then after the walk all have, on the chain or off it |
| SchedDonation.WalkRaises | src/threads/thread.c:492-527 | the walk gives the thread at the end of the chain the largest priority found on the chain |
| SchedQueue.ScheduleOk | src/threads/thread.c:884-904 | the front of the ready list runs, and with it the highest priority; statuses and list agree |
| SchedQueue.BlockOk | src/threads/thread.c:246-254 | blocking keeps the ready-list invariants and puts exactly the current thread to sleep |
| SchedQueue.UnblockOk | src/threads/thread.c:264-279 | unblocking keeps the list sorted and wakes exactly that thread |
| SchedQueue.YieldOk | src/threads/thread.c:373-390 | yielding keeps the ready-list invariants and puts nobody to sleep |
| SchedQueue.MaxYieldOk | src/threads/thread.c:355-369 | afterwards the running priority is at least every ready one, whatever it was before |
| SchedQueue.ReinsertOk | src/threads/thread.c:429-444 | after one thread's priority changed, reinsertion restores the sorted ready list |
| SchedQueue.ExitOk | src/threads/thread.c:316-333 | a thread that exits is gone from the queue, and the rest is in order |
| SchedInvariant.SleepOnSemasOk | src/threads/synch.c:60-76 | going to sleep on a zero semaphore keeps waiter lists and the no-lost-wake-up bound |
| SchedInvariant.PassThroughSemasOk | src/threads/synch.c:60-76 | getting through a positive semaphore keeps them |
| SchedInvariant.PromiseSemasOk | src/threads/synch.c:108-128 | waking a waiter and raising the value keeps them: the new value is owed to a woken thread |
| SchedSteps.DownTurnSleeps | src/threads/synch.c:60-76 | the invariant survives a turn of sema_down that goes back to sleep |
| SchedSteps.DownTurnPasses | src/threads/synch.c:60-76 | ... and one that gets through |
| SchedSteps.TryDownKeepsInv | src/threads/synch.c:83-102 | sema_try_down keeps the invariant |
| SchedSteps.PreemptKeepsInv | src/threads/thread.c:355-369 | thread_max_yield keeps the invariant |
| SchedLocks.SemaUpKeepsInv | src/threads/synch.c:108-125 | sema_up up to its call of thread_max_yield keeps it |
| SchedLocks.AcquireTurnPasses | src/threads/synch.c:199-221 | lock_acquire getting through keeps it: value 0, holder set, no required lock left |
| SchedLocks.TryAcquireKeepsInv | src/threads/synch.c:229-241 | lock_try_acquire keeps it |
| SchedLocks.RemoveDonationsEffect | src/threads/synch.c:248-275 | the loop of lock_release takes exactly the lock's waiters off the donation lists and leaves the others in order |
| SchedLocks.WaiterDonatesToHolder | src/threads/synch.c:248-275 | whoever waits for a lock donates, if at all, to its holder |
| SchedLocks.ReleaseKeepsInv | src/threads/synch.c:248-275 | lock_release keeps the invariant |
| SchedAcquire.DonateQueue | src/threads/thread.c:492-527 | the walk changes the run queue only in the order of the ready list, which is sorted again |
| SchedAcquire.DonateDonors | src/threads/thread.c:492-527 | only threads on the chain become donors |
| SchedAcquire.DonateReaches | src/threads/thread.c:492-527 | every thread on the chain that requires a lock becomes a donor of its holder |
| SchedAcquire.AcquireDonorsBlocked | src/threads/synch.c:199-221 | after a contended acquire every donor sleeps on the lock it requires iff the threads up the chain did |
| SchedAcquire.AcquireSleeps | src/threads/synch.c:199-221 | a contended acquire whose chain is asleep keeps the whole invariant |
| SchedAcquire.AcquireHangsIff | src/threads/synch.c:199-221 | in a reachable state a contended lock_acquire loops forever iff the chain of holders comes back to the caller or meets a lock released and not taken yet |
| SchedAcquire.ReleasedIsPromised | src/threads/synch.c:269-274 | such a lock has a thread that was woken for it and has not run |
| SchedRuns.BootInv | src/threads/thread.c:103-119 | the state after start-up has the invariant |
| SchedRuns.CreateKeepsInv | src/threads/thread.c:188-233 | thread_create up to its call of thread_max_yield keeps it |
| SchedRuns.SetPriorityKeepsInv | src/threads/thread.c:467-475 | thread_set_priority up to its call of thread_max_yield keeps it, donations included |
| SchedRuns.ExitKeepsInv | src/threads/thread.c:316-333 | thread_exit keeps it |
| SchedRuns.StepKeepsInv | src/threads/synch.c:60-275 | every step that may be taken keeps it |
| SchedRuns.RunKeepsInv | src/threads/synch.c:60-275 | every run keeps it: queue order, no lost wake-up, lock values and holders, donors asleep on their recipient's lock, no circular wait, priority fixpoint |
| SchedRuns.StepTop | src/threads/thread.c:355-390 | after a step no ready thread outranks the running one, if the step ends in the scheduler or it was so before; but for the wake-up, creation or new priority a thread_max_yield is due to |
| SchedRuns.HighestRuns | src/threads/thread.c:355-390 | over every run no ready thread outranks the running one, except while a thread_max_yield is due |
| SchedTheorems.PriorityIsTreeMax | src/threads/thread.c:448-542 | in every reachable state a thread's effective priority is the largest base priority in the whole tree of its donors, and some thread there has it |
| SchedTheorems.ReleaseRetracts | src/threads/synch.c:248-275 | release takes exactly the donors that wait for this lock off the holder's list, no other list changes, and the holder's priority is the largest of its base and the remaining donors |
| SchedTheorems.StepValue | src/threads/synch.c:60-128 | a step changes a semaphore's value by its up less its completed down, and by nothing else |
| SchedTheorems.ValueConserved | src/threads/synch.c:60-128 | over a run, value = initial + ups - completed downs |
| SchedTheorems.LockHeldIffUnreleased | src/threads/synch.c:182-275 | a lock is held iff it was acquired once more than released, and then by one thread |
| SchedEffects.WakesHighest | src/threads/synch.c:108-125 | sema_up takes off the waiter list the first of the waiters of highest priority, the others stay in order, and it enters the ready list behind all of at least its priority and in front of all of less |
| SchedEffects.StepWaiters | src/threads/synch.c:60-275 | which waiter lists a step changes and how: who goes to sleep joins the end, sema_up and lock_release take the first of highest priority, and nothing else changes one |
| SchedEffects.StepWaitsFor | src/threads/synch.c:60-275 | a thread waits from the step that puts it to sleep to the one in which it gets through |
| SchedEffects.StepHolders | src/threads/synch.c:182-275 | the thread that gets through becomes the holder of its lock, a release clears the holder, and nothing else changes one |
| SchedEffects.StepInit | src/threads/synch.c:182-189 | a semaphore starts with the value it is given, a lock with value 1 and no holder; the others are as they were |
| SchedEffects.StepBases | src/threads/thread.c:467-475 | a base priority is what the thread was created with or has set last: no donation and no other step changes it |
| SchedEffects.StepLiving | src/threads/thread.c:188-333 | only thread_create adds a thread and only thread_exit takes one away, the current one |
| SchedEffects.StepGoesOn | src/threads/thread.c:246-390 | the running thread runs on after every step in which it neither goes to sleep nor calls the scheduler |
| SchedEffects.YieldGivesWay | src/threads/thread.c:373-390 | a thread that yields runs on iff every ready thread is below it; otherwise the front of the ready list runs, and it is ready behind all that are not below it |
| SchedEffects.PreemptsOnlyUp | src/threads/thread.c:355-369 | thread_max_yield does nothing if no ready thread has strictly higher priority; otherwise the thread yields and the front of the ready list, which is above it, runs |
| SchedFifo.InsertGoesBehind | src/lib/kernel/list.c:445-459 | ordered insertion puts a thread behind those of equal priority |
| SchedFifo.AcquireRaises | src/threads/synch.c:199-221 | a contended lock_acquire gives the end of its chain the largest priority on it |
| SchedFifo.ReinsertFlips | src/threads/thread.c:429-444 | putting a ready thread back with a new priority swaps it with another exactly when its priority no longer fits its place |
| SchedFifo.StepKeepsOrder | src/threads/thread.c:264-527 | any step keeps two ready threads in order until the first runs, iff it is not a contended lock_acquire whose chain ends at one of them with a largest priority that does not belong where it was |
| SchedFifo.FirstComeFirstServed | src/threads/thread.c:264-527 | over a run, the thread behind stays behind the ready one in front iff no step of the run is of that kind |
| SchedHang.ReleasedChainIsBroken | src/threads/synch.c:269-274 | after lock_release the chain can meet a lock without a holder |
| SchedHang.AcquireCanHang | src/threads/thread.c:498-525 | a run from start-up after which lock_acquire's donation loop does not end |
| SchedOvertake.EqualFallsBehind | src/threads/thread.c:429-444 | a run of three threads of one priority in which a ready lock holder in front falls behind another when the third acquires its lock |
| SchedStuck.DonationOutlivesLock | src/threads/synch.c:248-275 | a run in which a donor is ready instead of asleep on its lock, so that its donation outlives the release: the recipient ends with priority 40 on a base of 31, holding no lock |
| SchedState.HighestPosIsFirst | src/lib/kernel/list.c:511-524 | list_min picks a thread that nobody on the list outranks, and all in front of it have lower priority |
| SchedKernel.ListInsertOrdered | src/lib/kernel/list.c:445-459 | the scan finds the place before the first thread of lower priority |
| SchedKernel.ListMin | src/lib/kernel/list.c:511-524 | the loop returns a thread of the list that none outranks and that those in front of it do not equal |
| SchedKernel.Kernel.ThreadDonatePriority | src/threads/thread.c:492-527 | the loop ends and refines the walk of which DonateRestoresFixpoint speaks |
| SchedKernel.Kernel.Yielded | src/threads/thread.c:373-390 | in place: takes the step, keeps the invariant, and the highest priority runs |
| SchedKernel.Kernel.MaxYielded | src/threads/thread.c:355-369 | in place: keeps the invariant, and the highest priority runs, whatever ran before |
| SchedKernel.Kernel.SemaDown | src/threads/synch.c:60-76 | in place: takes the step up to the first sleep and keeps the invariant; gets through iff the value was positive |
| SchedKernel.Kernel.Resumed | src/threads/synch.c:60-76 | in place: a woken thread retests in sema_down or lock_acquire, keeping the invariant; gets through iff the value was positive |
| SchedKernel.Kernel.ThreadSetPriority | src/threads/thread.c:467-477 | in place: takes the step and its thread_max_yield, keeps the invariant, the base priority is the one given, and the highest priority runs |
| SchedKernel.Kernel.ThreadCreate | src/threads/thread.c:188-238 | in place: takes the step and its thread_max_yield, keeps the invariant; the thread is there with the priority given, and the highest priority runs |
| SchedKernel.Kernel.ThreadExit | src/threads/thread.c:316-333 | in place: takes the step, keeps the invariant, and the highest priority runs |
| SchedKernel.Kernel.SemaTryDown | src/threads/synch.c:83-102 | in place: takes the step and keeps the invariant; true iff the value was positive |
| SchedKernel.Kernel.SemaUp | src/threads/synch.c:108-128 | in place: the first waiter of highest priority, and no other, is taken off the list and made ready, the value goes up by one, thread_max_yield runs, the invariant holds and the highest priority runs |
| SchedKernel.Kernel.LockAcquire | src/threads/synch.c:199-221 | in place: takes the step up to the first sleep and keeps the invariant; the lock is obtained iff nobody held it, and the caller is then the holder, otherwise last on its waiter list |
| SchedKernel.Kernel.LockTryAcquire | src/threads/synch.c:229-241 | in place: takes the step and keeps the invariant; true iff nobody held the lock, and the caller is then its holder |
| SchedKernel.Kernel.LockRelease | src/threads/synch.c:248-275 | in place: the loop over the waiters and the rest take the step; nobody holds the lock, its first waiter of highest priority and no other is woken, the invariant holds and the highest priority runs |
| ListSpec.MergeSorted | src/lib/kernel/list.c:379-399 | merging two sorted runs gives a sorted one |
| ListSpec.MergeAlike | src/lib/kernel/list.c:379-399 | merging keeps equivalent elements in order, the first run's first |
| ListSpec.PassHalves | src/lib/kernel/list.c:404-440 | a pass that outputs c runs had at least 2c - 1 |
| ListSpec.PassShrinks | src/lib/kernel/list.c:404-440 | a pass that outputs more than one run leaves fewer runs, so the sort ends |
| ListSpec.PassPermutes | src/lib/kernel/list.c:404-440 | a pass only permutes |
| ListSpec.PassStable | src/lib/kernel/list.c:404-440 | a pass keeps equivalent elements in order |
| ListSpec.MergeSortCorrect | src/lib/kernel/list.c:404-440 | for any strict weak order the result is sorted, a permutation and stable |
| ListSpec.SortUnique | src/lib/kernel/list.c:404-440 | a stable sorted arrangement is unique |
| ListSpec.InsertSorted | src/lib/kernel/list.c:445-459 | ordered insertion keeps a list sorted |
| ListSpec.InsertAlike | src/lib/kernel/list.c:445-459 | the new element goes behind its equals |
| ListSpec.MergeSortIsInsertionSort | src/lib/kernel/list.c:404-459 | list_sort equals repeated list_insert_ordered |
| ListLinks.Insert | src/lib/kernel/list.c:168-178 | the element is in the sequence in front of the given one; prev and next stay mutually inverse |
| ListLinks.Remove | src/lib/kernel/list.c:248-255 | exactly that element leaves; prev and next stay mutually inverse |
| ListLinks.Splice | src/lib/kernel/list.c:183-204 | a range moves in front of the given element, the links mutually inverse again |
| ListLinks.SpliceFrom | src/lib/kernel/list.c:183-204 | the same from one list into another: both are linked lists again and share no element |
| ListLinks.FindEndOfRun | src/lib/kernel/list.c:357-372 | the loop stops at the end of the longest ascending run |
| ListLinks.InplaceMerge | src/lib/kernel/list.c:379-399 | by splicing only, the two adjacent runs become their merge |
| ListLinks.SortPass | src/lib/kernel/list.c:404-440 | one pass over the links does what Pass says and counts the runs it outputs |
| ListLinks.Sort | src/lib/kernel/list.c:404-440 | the list is sorted stably, the links mutually inverse, no element lost |
| ListLinks.InsertOrdered | src/lib/kernel/list.c:445-459 | the element is linked in at the place the specification says |
| Bits.BitAnd | src/lib/kernel/bitmap.c:175-180 | the digits of x & y |
| Bits.BitOr | src/lib/kernel/bitmap.c:162-167 | the digits of x \| y |
| Bits.BitXor | src/lib/kernel/bitmap.c:190-195 | the digits of x ^ y |
| Bits.BitNot | src/lib/kernel/bitmap.c:175-180 | the digits of ~x in a word |
| Bits.TestsBit | src/lib/kernel/bitmap.c:198-204 | x & (1 << k) is nonzero iff digit k of x is set |
| Bitmaps.UnpackUpdate | src/lib/kernel/bitmap.c:35-54 | changing one bit of one word changes that one bit of the sequence the words stand for |
| Bitmaps.FirstUniformUnique | src/lib/kernel/bitmap.c:296-311 | there is one first run |
| Bitmaps.Bitmap.constructor | src/lib/kernel/bitmap.c:78-94 | all bits false |
| Bitmaps.Bitmap.Test | src/lib/kernel/bitmap.c:198-204 | the bit of the sequence |
| Bitmaps.Bitmap.Mark | src/lib/kernel/bitmap.c:157-167 | that bit true, all others as they were |
| Bitmaps.Bitmap.Reset | src/lib/kernel/bitmap.c:170-180 | that bit false, all others as they were |
| Bitmaps.Bitmap.Flip | src/lib/kernel/bitmap.c:185-195 | that bit flipped, all others as they were |
| Bitmaps.Bitmap.SetMultiple | src/lib/kernel/bitmap.c:218-229 | exactly that range set |
| Bitmaps.Bitmap.Contains | src/lib/kernel/bitmap.c:251-264 | true iff some bit of the range has the value |
| Bitmaps.Bitmap.Scan | src/lib/kernel/bitmap.c:296-311 | the least index at which cnt equal bits start, or an error iff there is none |
| Bitmaps.Bitmap.ScanAndFlip | src/lib/kernel/bitmap.c:320-327 | that run flipped, nothing else; nothing on error |
| Palloc.HeldAndFree | src/threads/palloc.c:70-142 | every page of a pool is held or free, never both |
| Palloc.GetTakesFree | src/threads/palloc.c:70-101 | the pages obtained were free, the lowest such run; failure iff no run is long enough |
| Palloc.GiveReturns | src/threads/palloc.c:117-142 | freeing releases exactly those pages |
| Palloc.GiveUndoesGet | src/threads/palloc.c:70-142 | freeing what was obtained restores the pool |
| Palloc.ServeKeepsLedger | src/threads/palloc.c:70-142 | after a request the bitmaps agree with what callers hold; what is handed out was free in the pool asked for |
| Palloc.RunKeepsLedger | src/threads/palloc.c:70-142 | over any run the pools stay disjoint, the bitmaps mark what is held, and held plus free is constant |
| Palloc.NeverHeldTwice | src/threads/palloc.c:70-101 | after any run, what is handed out next is disjoint from what is held |
| Palloc.BitmapFits | src/threads/palloc.c:153-170 | a pool's bitmap fits in the pages reserved for it |
| Palloc.InitSplitsMemory | src/threads/palloc.c:45-62 | booting panics iff a pool's share of memory is empty; otherwise pools and bitmaps share memory without overlap, all pages free |
| Palloc.InitShares | src/threads/palloc.c:45-170 | the user pool gets half of free memory, rounded down, up to its limit, and the kernel pool the rest; either loses exactly the pages its bitmap of 8 bytes and one bit a page takes |
| Palloc.PageAllocator.constructor | src/threads/palloc.c:45-62 | the two pools as InitSplitsMemory describes them |
| Palloc.PageAllocator.GetMultiple | src/threads/palloc.c:70-101 | in place on the bitmaps, refines Serve |
| Palloc.PageAllocator.FreeMultiple | src/threads/palloc.c:117-142 | in place on the bitmaps, refines Serve |
| Malloc.BlockSizes | src/threads/malloc.c:71-85 | the seven block sizes, how many blocks of each fit in a page, and that the next size would leave no room for two |
| Malloc.BlocksApart | src/threads/malloc.c:285-294 | an arena's blocks lie past its header, inside its page, one after the other |
| Malloc.AllocateCorrect | src/threads/malloc.c:89-154 | malloc keeps the invariant; it returns null and changes nothing, or makes one block live that was not |
| Malloc.ReleaseCorrect | src/threads/malloc.c:218-264 | free keeps the invariant and makes exactly its block not live |
| Malloc.AllocateNullIff | src/threads/malloc.c:89-154 | malloc returns null iff the size is 0; or it is at most 1024, every block of the smallest size that fits is in use and no page is free; or it is larger and no free run of pages holds it and a header; the sizes whose sum with the header wraps, or comes within a page of it, are told apart |
| Malloc.AllocateFits | src/threads/malloc.c:89-154 | a small block comes from an arena of the smallest block size that fits; a big one has just as many pages as it and a header need, or one where the sum wraps |
| Malloc.FreeUndoesMalloc | src/threads/malloc.c:89-264 | freeing a block just obtained restores the heap, free lists, arenas and pool |
| Malloc.MallocUndoesFree | src/threads/malloc.c:89-264 | the block freed last is the next one of its size, and the heap is then as before, if its arena stayed |
| Malloc.LiveInArena | src/threads/malloc.c:267-294 | a live block lies past the header and inside its arena's pages |
| Malloc.LiveApart | src/threads/malloc.c:267-294 | no two live blocks share a byte |
| Malloc.CountsAtMost | src/threads/malloc.c:218-264 | free_cnt never exceeds the blocks of an arena, and equals it iff all are on the free list |
| Malloc.ArenaHasLive | src/threads/malloc.c:218-264 | every arena that holds pages has a live block |
| Malloc.PageReturnedWithLast | src/threads/malloc.c:218-264 | an arena's page goes back exactly when its last live block is freed |
| Malloc.NothingLiveNothingHeld | src/threads/malloc.c:218-264 | with nothing live, malloc holds no page |
| Malloc.EnoughIff | src/threads/malloc.c:104-123 | the block returned holds SIZE bytes iff adding the header to SIZE does not wrap |
| Malloc.WrapReturnsTooLittle | src/threads/malloc.c:104-123 | 2^32 - 1 bytes are served by a block of 4084 |
| Malloc.ResizeCorrect | src/threads/malloc.c:194-214 | realloc trades the old block for the new one, or keeps the old one when there is no memory |
| Malloc.ResizeNullIff | src/threads/malloc.c:194-214 | realloc returns null iff the size is 0 or malloc would refuse it |
| Malloc.ResizeCopies | src/threads/malloc.c:194-214 | it copies all of the old block or all that was asked for, whichever is less; the copy reads inside the old block, which the new one does not overlap, and writes inside the new one iff adding the header does not wrap or the old block is at most a page |
| Malloc.CallKeeps | src/threads/malloc.c:89-264 | each call keeps live blocks and callers' ledger in agreement, and hands out nothing already owned |
| Malloc.RunIsSafe | src/threads/malloc.c:89-264 | over every run of malloc, free, realloc and page requests: owned blocks are live and disjoint, and once all are freed every page is back |
| MallocKernel.InitDescs | src/threads/malloc.c:71-85 | the loop makes seven descriptors of the sizes and counts the specification uses |
| MallocKernel.Allocator.FindDesc | src/threads/malloc.c:100-104 | the loop finds the smallest descriptor that fits |
| MallocKernel.Allocator.AddBlocks | src/threads/malloc.c:137-145 | the loop puts an arena's blocks on the free list in order |
| MallocKernel.Allocator.Allocate | src/threads/malloc.c:89-154 | in place, refines Malloc.Allocate, and returns null exactly when AllocateNullIff says |
| MallocKernel.Allocator.RemoveBlocks | src/threads/malloc.c:244-251 | the loop removes the arena's blocks; every list_remove is given an element of the list |
| MallocKernel.Allocator.Free | src/threads/malloc.c:218-264 | in place, refines Malloc.Release; its assertions hold |
| MallocKernel.Allocator.Resize | src/threads/malloc.c:194-214 | in place, refines Malloc.Resize, and returns null exactly when ResizeNullIff says |
| FsState.OpenCloseCancels | src/filesys/inode.c:111-186 | opening an inode and closing it again leaves no trace |
| FsOwnership.OwnerLeaves | src/filesys/inode.c:163-186 | releasing an owner's sectors keeps all other owners' sectors marked and disjoint |
| FsOwnership.ReleaseClears | src/filesys/inode.c:163-186 | both assertions of the release hold, and exactly the inode's sectors are cleared |
| FsOwnership.OpenKeepsInv | src/filesys/inode.c:111-151 | opening or reopening keeps the invariant |
| FsOwnership.DenyKeepsInv | src/filesys/file.c:118-141 | denying and allowing writes keeps it |
| FsOwnership.DenyWithinOpen | src/filesys/inode.c:322-338 | deny_write_cnt never exceeds open_cnt |
| FsOwnership.DenyAssertionsHold | src/filesys/inode.c:322-338 | the assertions of deny and allow hold for every open file |
| FsOwnership.FileCloseKeepsInv | src/filesys/file.c:45-54 | closing keeps the invariant, the last close of a removed inode included |
| FsOwnership.RemoveCases | src/filesys/directory.c:184-216 | removing an open file keeps its sectors; removing a closed one gives them back at once |
| FsOwnership.RemoveKeepsInv | src/filesys/filesys.c:83-91 | filesys_remove keeps the invariant |
| FsOwnership.CreateEnds | src/filesys/filesys.c:45-59 | filesys_create leaves the file, or only its data sectors, or nothing: every other rollback is complete |
| FsOwnership.CreateKeepsInv | src/filesys/filesys.c:45-59 | it keeps the invariant in all three cases |
| FsOwnership.StepKeepsInv | src/filesys/filesys.c:45-91 | every call keeps it |
| FsOwnership.RunKeepsInv | src/filesys/filesys.c:45-91 | over every run owners' sectors are marked and disjoint, different names lead to different inodes that are not removed, counts are those of the open files |
| FsOwnership.ReleasedOnce | src/filesys/inode.c:163-186 | a call unmarks exactly the sectors of the inode it destroys, which was an owner and is none any more |
| FsLeaks.LeaksIff | src/filesys/filesys.c:45-59 | every marked sector stays owned iff the call is not a create that gets data sectors and is then refused by dir_add |
| FsLeaks.RunLeaksNothing | src/filesys/filesys.c:45-91 | over every run without such a call exactly the owners' sectors are marked |
| FsLeaks.CreateTwiceLeaks | src/filesys/filesys.c:45-59 | creating one name twice on a small formatted device leaks |
| FsLeaks.FormatInv | src/filesys/filesys.c:94-103 | a formatted device has the invariant and no leak |
| FsLeaks.FormatIs | src/filesys/filesys.c:94-103 | formatting succeeds iff the device has room for both inodes, the free map and the directory; then these four follow one another from sector 0 and only they are marked |
| FsEffects.OpenDoes | src/filesys/filesys.c:66-77 | filesys_open opens the inode the name leads to: one more opener, a new file on it without the deny flag, and nothing else; nothing at all if there is no such name or no memory |
| FsEffects.ReopenDoes | src/filesys/file.c:38-42 | file_reopen does the same with the inode of the file it is given |
| FsEffects.DenyDoes | src/filesys/file.c:118-141 | the flag of that file is set or cleared, its inode counts one denier more or less if it was not so already, and nothing else changes |
| FsEffects.CloseDoes | src/filesys/file.c:45-54 | the file is gone, its inode has one opener less and one denier less if the file was one, and is dropped with the last; exactly the sectors of a removed inode whose last file this was are unmarked |
| FsEffects.RemoveDoes | src/filesys/filesys.c:83-91 | the name is gone and no other; an inode in use is marked removed, one that is not has its sectors unmarked |
| FsEffects.CreateDoes | src/filesys/filesys.c:45-59 | a file is created iff the name is valid and new, the directory and the device have room and memory lasts; then on the first free sector, with its data on the first free run that is long enough; else names, files and inodes are as they were |
| FsEffects.SectorCntIs | src/filesys/inode.c:25-29 | bytes_to_sectors is the least number of sectors that hold the bytes |
| FsKernel.FileSystem.constructor | src/filesys/filesys.c:17-31 | in place, refines Format |
| FsKernel.FileSystem.FreeMapAllocate | src/filesys/free-map.c:27-41 | in place on the bitmap, with its rollback |
| FsKernel.FileSystem.FreeMapRelease | src/filesys/free-map.c:44-50 | in place on the bitmap, given its assertion |
| FsKernel.FileSystem.CloseInode | src/filesys/inode.c:163-186 | in place, refines InodeClose |
| FsKernel.FileSystem.CreateInode | src/filesys/inode.c:72-106 | in place, refines InodeCreate |
| FsKernel.FileSystem.CreateFile | src/filesys/filesys.c:45-59 | in place, refines Create, keeps the invariant, and creates the file exactly when and where CreateDoes says |
| FsKernel.FileSystem.OpenFile | src/filesys/filesys.c:66-77 | in place, refines Open and keeps the invariant; a new handle on the inode of that name, iff there is one and there is memory |
| FsKernel.FileSystem.ReopenFile | src/filesys/file.c:38-42 | in place, refines Reopen and keeps the invariant; a new handle on the same inode, iff there is memory |
| FsKernel.FileSystem.DenyFile | src/filesys/file.c:118-141 | in place, refines SetDeny and keeps the invariant; flag and count as DenyDoes says |
| FsKernel.FileSystem.CloseFile | src/filesys/file.c:45-54 | in place, refines FileClose and keeps the invariant; closes that file as CloseDoes says |
| FsKernel.FileSystem.RemoveFile | src/filesys/filesys.c:83-91 | in place, refines Remove and keeps the invariant; removes that name as RemoveDoes says |
| InodeIo.ReadAfterWrite | src/filesys/inode.c:200-318 | reading what was written gives it back |
| InodeIo.ChunkRead | src/filesys/inode.c:206-243 | a chunk within one sector is a slice of the flat file |
| InodeIo.ChunkWritten | src/filesys/inode.c:269-312 | laying a chunk into one sector splices the flat file and touches no byte outside it |
| InodeIo.OtherFileKept | src/filesys/inode.c:257-318 | writing a file changes no byte of a file whose sectors are others |
| InodeIo.WriteIsolated | src/filesys/inode.c:257-318 | with ownership in order, a write leaves every other owner's file and every inode's sector as they are |
| InodeIo.ReadAt | src/filesys/inode.c:200-250 | the loop returns the slice max(0, min(size, length - offset)) long, or a prefix of it without memory |
| InodeIo.WriteAt | src/filesys/inode.c:257-318 | the loop splices as many bytes as it reports, all that fit if there is memory, none if writes are denied, and changes nothing else |
| InodeIo.WriteChunk | src/filesys/inode.c:281-312 | one turn; the branch that zeroes the bounce buffer is unreachable |
| Directory.DecodeFilled | src/filesys/directory.c:169-174 | an entry filled in reads back as name, sector and in use, whatever it held before |
| Directory.EntryLayout | src/filesys/directory.c:17-22 | the bytes of an entry: sector number with the least byte first, name, zero, what was there, and the flag |
| Directory.EntryWritten | src/filesys/directory.c:141-216 | writing an entry's bytes changes that entry and no other |
| Directory.FindsWhatMapHas | src/filesys/directory.c:91-112 | lookup agrees with the map |
| Directory.AddRefinesMap | src/filesys/directory.c:141-179 | dir_add succeeds iff the name is valid, absent and there is room, and then adds exactly that mapping |
| Directory.RemoveRefinesMap | src/filesys/directory.c:184-216 | dir_remove removes exactly that mapping |
| Directory.ShortReadsHarmlessIff | src/filesys/directory.c:158-179 | dir_add whose reads fail for lack of memory after some entries does what it is for iff it still sees the name, or otherwise everything in front of the first free entry |
| Directory.ShortReadOverwrites | src/filesys/directory.c:158-179 | a failing read makes it overwrite a name in use, against the comment in dir_add |
| Directory.RunRefinesMap | src/filesys/directory.c:141-216 | over every run a directory is a bounded map and the names in use are distinct |
| Directory.ListsEachOnce | src/filesys/directory.c:221-236 | reading from the start lists every name once |
| Directory.ListsInOrder | src/filesys/directory.c:221-236 | in the order of their entries |
| Directory.Lookup | src/filesys/directory.c:91-112 | the loop over the file's bytes finds the first entry in use under the name, among those it has memory to read |
| Directory.Add | src/filesys/directory.c:141-179 | on the device, refines AddShort, short reads included, and reports whether it wrote; other files are untouched |
| Directory.Remove | src/filesys/directory.c:184-216 | on the device, removes the name as RemoveEntry does or reports that it did not; other files are untouched |
| Directory.Readdir | src/filesys/directory.c:221-236 | returns the next name of the listing and the position after it |
| FsDirectory.NoNames | src/filesys/filesys.c:94-103 | a root directory of zeros holds no names |
| FsDirectory.AddName | src/filesys/filesys.c:45-59 | dir_add, given memory, succeeds iff the name is valid and new and there is room; names of the file system and bytes of the root directory agree afterwards |
| FsDirectory.RemoveName | src/filesys/filesys.c:83-91 | dir_remove keeps names and bytes in agreement, short of memory or not |
| FsDirectory.OtherWritesKeepNames | src/filesys/inode.c:257-318 | a write to another inode's data changes no name on the device |
| FsDirectory.InodeWritesKeepNames | src/filesys/inode.c:72-106 | and writing an inode's own sector does not either |
| Arithmetic.Nlz | src/lib/arithmetic.c:41-73 | the number of leading zeros, by the five tests |
| Arithmetic.EstimateIsClose | src/lib/arithmetic.c:77-127 | the normalised estimate is the quotient or one more, and no division traps |
| Arithmetic.Udiv64IsDivision | src/lib/arithmetic.c:77-127 | udiv64 is division for all 64-bit operands with nonzero divisor |
| Arithmetic.Umod64Iff | src/lib/arithmetic.c:131-135 | umod64 is the remainder iff the remainder fits 32 bits |
| Arithmetic.TruncatesUnique | src/lib/arithmetic.c:139-146 | there is one quotient that truncates toward zero |
| Arithmetic.Sdiv64Iff | src/lib/arithmetic.c:139-146 | sdiv64 truncates toward zero iff the quotient can be represented |
| Arithmetic.Sdiv64Overflow | src/lib/arithmetic.c:139-146 | its signed arithmetic overflows only for the least number by 1 or -1 |
| Arithmetic.Smod64Iff | src/lib/arithmetic.c:150-154 | smod64 is the remainder iff that fits 32 bits with sign |
| HashSpec.TopBitStays | src/lib/kernel/hash.c:329-340 | turning off the lowest set bit leaves the highest, and gives 0 iff the number is a power of two |
| HashSpec.NewBucketCnt | src/lib/kernel/hash.c:364-376 | the loop ends with the largest power of two at most half the elements, at least 4 |
| HashSpec.BucketIsRemainder | src/lib/kernel/hash.c:305-310 | with a power of two of buckets, an element is in the bucket numbered by the remainder of its hash |
| HashSpec.ElemsDiffer | src/lib/kernel/hash.c:305-326 | a table holds at most one element of each equivalence class |
| HashSpec.PushKeeps | src/lib/kernel/hash.c:416-421 | inserting an element unlike all others keeps the table in order |
| HashSpec.RemoveKeeps | src/lib/kernel/hash.c:424-429 | removing one keeps it in order and removes only that one |
| HashTables.ChainOfTable | src/lib/kernel/hash.c:199-235 | iteration yields each element exactly once |
| HashTables.HashTable.Find | src/lib/kernel/hash.c:131-135 | the element equal to the key, or none iff there is none |
| HashTables.HashTable.Insert | src/lib/kernel/hash.c:98-110 | adds the element iff no equal one is there, through a rehash; with memory the bucket count is the best |
| HashTables.HashTable.Replace | src/lib/kernel/hash.c:114-127 | replaces the equal element if there is one |
| HashTables.HashTable.Delete | src/lib/kernel/hash.c:144-154 | removes exactly the equal element if there is one |
| HashTables.HashTable.Rehash | src/lib/kernel/hash.c:351-413 | same elements; a power of two of buckets with fewer than 4 elements each on average and, above 4 buckets, at least 2 |
| HashTables.HashTable.MoveAll | src/lib/kernel/hash.c:392-410 | the nested loops move every element to the bucket of its hash |
| HashTables.Cursor.Next | src/lib/kernel/hash.c:218-235 | yields the next element of the chain and leaves the rest |
| HeapSort.RootIsMax | src/lib/stdlib.c:96-152 | the first element of a heap is the greatest |
| HeapSort.SwapMovesGap | src/lib/stdlib.c:96-123 | a swap with the larger child moves the one gap in the heap one level down |
| HeapSort.Heapify | src/lib/stdlib.c:96-123 | in place: the heap is whole from the index on, the elements only rearranged |
| HeapSort.BuildHeap | src/lib/stdlib.c:143-145 | the first loop makes the array a heap |
| HeapSort.TakeMax | src/lib/stdlib.c:147-151 | a turn of the second loop extends the sorted part by the greatest of the rest |
| HeapSort.Sort | src/lib/stdlib.c:131-152 | in place: sorted and a permutation, for any comparison that is a total preorder |
| HeapSort.BinarySearch | src/lib/stdlib.c:184-207 | on a sorted array, finds an equal element iff there is one |
| Mlfqs.LoadStays | src/threads/thread.c:654-667 | load_avg stays between 0 and n if at most n threads are ready |
| Mlfqs.CoefficientAtMost | src/threads/thread.c:682-694 | the decay factor is at most 2n / (2n + 1) |
| Mlfqs.RecentStays | src/threads/thread.c:682-694 | recent_cpu is back within its bounds at every full second |
| Mlfqs.LoadAvgExact | src/threads/thread.c:654-667 | no intermediate result of the load average wraps |
| Mlfqs.RecentCpuExact | src/threads/thread.c:682-694 | none of recent_cpu's does |
| Mlfqs.TickExact | src/threads/thread.c:609-626 | a tick's increment does not wrap and keeps the bounds |
| Mlfqs.PriorityExact | src/threads/thread.c:581-603 | the priority is the formula's value brought into range; every intermediate fits 32 bits |
| Mlfqs.LoadAvgDecays | src/threads/thread.c:654-667 | the new load average is (59 load_avg + ready) / 60, short of it by a rounding error that is bounded exactly |
| Mlfqs.RecentCpuDecays | src/threads/thread.c:682-694 | the new recent_cpu is 2 load_avg / (2 load_avg + 1) recent_cpu + nice, nearer to zero by less than one unit and one for each whole recent_cpu |
| Mlfqs.StepDoes | src/threads/thread.c:609-694 | what every event stores: a tick charges the running thread one, and at a full second sets the load average and then every recent_cpu by the new load average, as the two lines above say; nice changes only by thread_set_nice; nothing else changes |
| Mlfqs.StepBounded | src/threads/thread.c:609-626 | every event keeps the bounds, and its arithmetic is exact; StepDoes says what it stores |
| Mlfqs.RunFromBoot | src/threads/thread.c:609-694 | in every run with at most n <= 545 ready threads at full seconds: 0 <= load_avg <= n, -20(2n+1) <= recent_cpu <= 240n+120, no wrap-around |
| PageTable.AddrBits | src/threads/pte.h:52-57 | PTE_ADDR masks out the frame's address, for any width of word |
| PageTable.EntryReadsBack | src/threads/pte.h:67-104 | frame and permission of an entry read back as they were put in; it is present and open to the user |
| PageTable.UserSeesMapping | src/threads/pte.h:52-104 | the processor, which tests the present, writable and user bits at both levels, gives a user program exactly the mapping the kernel made |
| PageTable.NewTableKeeps | src/userprog/pagedir.c:56-86 | a new page table changes no translation |
| PageTable.EntryWritten | src/userprog/pagedir.c:98-157 | writing an entry changes the translation of one page and of no other |
| PageTable.ClearedNotPresent | src/userprog/pagedir.c:143-157 | clearing the bit leaves the page not present |
| PageTable.PageDirectory.SetPage | src/userprog/pagedir.c:98-119 | maps that page to that frame for the user, with a new page table if need be, and fails iff there is no memory for one; all other translations as they were |
| PageTable.PageDirectory.ClearPage | src/userprog/pagedir.c:143-157 | unmaps that page and keeps every other bit of its entry; all other translations as they were |
| ElfLoad.ValidateIff | src/userprog/process.c:325-366 | the 32-bit checks hold iff the segment lies in user space above page 0 in unbounded arithmetic, and the other conditions |
| ElfLoad.PlanIsExact | src/userprog/process.c:271-297 | for a valid header nothing wraps, load_segment's assertions hold, and its pages are the user pages the segment touches |
| ElfLoad.ImageIsSegment | src/userprog/process.c:271-297 | the image holds the file's bytes and then zeros at the segment's addresses |
| ElfLoad.StoppedMeans | src/userprog/process.c:382-425 | a loader that stops at the first page it cannot load has loaded all iff at the start it had frames for all pages and for the distinct page tables missing, and the rest of what it needs |
| ElfLoad.AddressSpace.InstallPage | src/userprog/process.c:456-465 | maps the page iff it was not mapped and its page table is there or has memory; otherwise changes nothing |
| ElfLoad.AddressSpace.LoadPage | src/userprog/process.c:393-423 | one turn: succeeds iff the page is free, the bytes can be read and frame and page table can be had; then a frame with file bytes and zeros is mapped, otherwise every page is as it was; takes exactly the frames it uses |
| ElfLoad.AddressSpace.LoadSegment | src/userprog/process.c:382-425 | succeeds iff no page of the range is mapped, the bytes can be read, and there are as many frames as pages and as page tables missing; the pages loaded hold the image and were not mapped; all other pages are as they were; counters never go below zero |
| ElfLoad.AddressSpace.LoadHeader | src/userprog/process.c:271-301 | a valid header is loaded iff load_segment has all it needs; then every address of the segment holds its byte with its permission; page 0 and untouched pages are as they were |
| Ustar.OctalSpells | src/lib/stdio.c:469-547 | zero-padded printing fills the width with octal digits that spell the number |
| Ustar.OctalRoundTrip | src/lib/ustar.c:129-162 | parse_octal_field of a printed number gives it back |
| UstarFormat.OctalIs | src/lib/stdio.c:469-547 | each character printed is the octal digit of its place |
| UstarFormat.ParseIff | src/lib/ustar.c:129-162 | a field is accepted iff it is one or more octal digits and then a space or null, and their number is at most 2^32 - 1; that number is the result |
| Ustar.StripIsFinal | src/lib/ustar.c:65-73 | a stripped name starts with none of the prefixes and is not changed by stripping |
| UstarFormat.StripIs | src/lib/ustar.c:65-73 | stripping takes a front made up of "/", "./" and "../" off the name, until none of them follows; what is left is the result, or "." if nothing or ".." is left |
| UstarFormat.StripKeeps | src/lib/ustar.c:65-73 | a name that starts with none of the prefixes, is not empty and is not ".." is kept as it is |
| Ustar.ChksumIgnoresField | src/lib/ustar.c:36-54 | the checksum does not depend on its own field |
| UstarFormat.ChksumIs | src/lib/ustar.c:36-54 | the checksum is the sum of the bytes with spaces in place of its own field |
| Ustar.SumFits | src/lib/ustar.c:36-54 | the checksum fits its field |
| Ustar.PutAllAt | src/lib/ustar.c:99-115 | fields that do not overlap can all be read back, the rest is zero |
| Ustar.HeaderRoundTrip | src/lib/ustar.c:82-227 | parsing a header that was made gives the stripped name, type and size; making fails iff the stripped name is over 99 bytes |
| UstarFormat.MadeLayout | src/lib/ustar.c:82-118 | what a header made holds: each field at its place, with its digits or characters and its terminator, and zeros elsewhere |
| UstarFormat.ParseAcceptsIff | src/lib/ustar.c:164-227 | a block parses as an entry iff magic and version are there, the checksum field parses to the checksum, the name ends within its field, there is no prefix, and it is a directory or a file whose size field parses to at most 2^31 - 1; with the stripped name, type and size; as the end of the archive iff it is all zeros |
| UstarFormat.CorruptionDetected | src/lib/ustar.c:164-227 | changing one byte outside the checksum field of a header that parses makes it an error |
| UstarCode.FormatOctal | src/lib/stdio.c:469-547 | the loops print what Octal says |
| UstarCode.ParseOctalField | src/lib/ustar.c:129-162 | the loop parses as ParseFrom does, overflow and bad characters included |
| UstarCode.CalculateChksum | src/lib/ustar.c:36-54 | the loop computes the checksum |
| UstarCode.StripPrefixes | src/lib/ustar.c:65-73 | the loop ends, and the result is the name without the pieces StripIs describes |
| UstarCode.MakeHeader | src/lib/ustar.c:82-118 | in place: the caller's buffer holds the header, laid out as MadeLayout says, or is untouched on failure |

## Left out

- SchedLocks.TryAcquireKeepsInv: `lock_try_acquire` is one step; in the source interrupts are on between `sema_try_down` and the assignment of the holder.
- SchedAcquire.AcquireSleeps: a woken thread that has not retested is not on the chain; `SchedAcquire.AcquireHangsIff` and `SchedAcquire.AcquireDonorsBlocked` say exactly what happens otherwise.
- SchedRuns.SetPriorityKeepsInv: the new base priority and the reset that follows are one step; in the source interrupts are on between them.
- SchedRuns.ExitKeepsInv: a thread exits holding no lock; the source does not check this and would leave a holder that no longer exists.
- SchedRuns.StepKeepsInv: the steps are those of the four lines above, with their preconditions.
- SchedRuns.RunKeepsInv: the runs are made of those steps.
- SchedTheorems.ValueConserved: a semaphore's value does not wrap around at 2^32.
- HashTables.HashTable.Insert: the number of elements does not wrap around at 2^32.
- FsOwnership.CreateKeepsInv: directory reads and writes inside a call have the memory they need; `Directory.ShortReadsHarmlessIff` says what `dir_add` does otherwise.
- FsOwnership.CreateEnds: directory reads and writes inside a call have the memory they need; a size within 511 bytes of 2^31 is not brought to the int arithmetic of `bytes_to_sectors`.
- Directory.Add: the length is a whole number of entries, as `dir_create` makes it.
- Directory.Remove: the length is a whole number of entries; opening the inode does not run out of memory.
- InodeIo.WriteAt: offsets are not negative.
- Ustar.HeaderRoundTrip: printed with any modification time that fits; the source uses one constant.
- ElfLoad.AddressSpace.LoadHeader: frames and page tables come from the page allocator's specification, not from the object that implements it; reading the file is one read per page, which finds all the memory it needs or none.
- Condition variables, the alarm clock, `thread_foreach`, tids and thread names: easy next to what is here.
- Donation under the 4.4BSD scheduler and its choice of the next thread: the code does not maintain either.
- `list_reverse`, `list_unique`, `list_max`, and the order assertions of the list.
- `bitmap_count`, reading and writing bitmaps in files, and the padding bits of the last word.
- `calloc`, the contents of allocated memory, and the locks inside the allocators.
- `file_read` and `file_write` positions, `pagedir_destroy`, dirty and accessed bits, `setup_stack`, and the ELF header itself.
- `hash_clear`, `hash_apply` and the hash functions; the element-wise byte copies of `qsort`.
- Devices, interrupts and assembly, the boot loader, `printf` beyond octal fields, system calls and user programs.
