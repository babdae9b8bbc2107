# Models of gloop/base

This project models seven components of `gloop/base` in Dafny and proves what they promise:
the futex semaphore, the arena allocator, the module initializers, CensusHandle, the scoped
context objects, the handling of command lines and flagfiles, and the NSS cache.

| file | component |
|---|---|
| `Options.dfy` | values that may be missing |
| `FutexSemaphore.dfy` | `SemWait`, `SemTimedWait` and `SemPost`, one atomic access or system call per step |
| `ArenaMath.dfy` | masks, powers of two, Euclid's GCD and the least common multiple |
| `ArenaSpec.dfy` | the arena as a value: blocks, bump pointer, last allocation, live regions, whole runs |
| `ArenaAsserts.dfy` | the two assertions of debug builds, and for which clients they are invariants |
| `Arena.dfy` | the arena as an object over a table of blocks and a system that hands out memory |
| `SafeArena.dfy` | threads sharing an arena, with `Realloc` split into its lock sections and its copy |
| `InitRegistration.dfy` | the constructors that register initializers and dependencies, and the tables of all types |
| `InitSchedule.dfy` | the depth-first scheduler, its cycle CHECK, and the object that runs it |
| `InitOrder.dfy` | exactly what a run executes, and in which order |
| `InitTypes.dfy` | the run of a program: its tables, name order, and why the linker's order does not matter |
| `InitThreads.dfy` | the scheduler under threads, with the table lock released around bodies |
| `CensusHandle.dfy` | reference counting under threads and under the profiling signal |
| `ContextScopes.dfy` | `WithContext` and the other scopes, nested and not nested |
| `ArgvRewrite.dfy` | the in-place rewrite of argv |
| `FlagFile.dfy` | sections and inclusion of flagfiles |
| `NssCache.dfy` | the time-limited cache and the growth of its lookup buffer |

Code that changes things step by step is modelled by classes and methods: the arena, the
registry, the scheduler, the scope objects, the rewrite of argv, the flagfile parser and the
buffer loop. Each is proved against functions over values, and what matters is proved about
those. Protocols between threads are state machines: a state, the steps each thread can take
next, and statements about every run, that is, about every interleaving of any number of threads.

Parameters stand for what lies outside: the kernel's answers to futex calls, the memory the
system hands out (new, and aligned as requested), initializer bodies (as the initializers they
require), the file system, glob matching and flag parsing, clock readings and what LookupFn says.

Five properties one might expect do not hold of the code. Each has an example, as a run from a
new object, and the exact condition.

* `is_empty` does not mean that everything has been freed: only the latest allocation can be
  taken back (`NothingLiveNeedNotBeEmpty`; `FreeEmptiesExactly`).
* The assertion that no more than the block size remains of the current block, which the source
  calls an invariant, is not one, and neither is the one on the size of the last allocation. For
  clients that ask for a given set of alignments, each is an invariant if and only if no
  alignment in the set makes a block of the usual size larger (`AssertCanFail`;
  `AssertIsInvariantExactly`, with `RoundsUpExactly` to say which alignments do).
* The rewrite of argv drops a flag that shares its pointer with a positional argument
  (`SharedPointerIsLost`; `KeepsAllIffUnshared`).
* The flag `nsscache_timeout` says that a negative value implies no time to live. Read as "records
  have no time to live and expire at once" that is what the code does. Read as "records never
  expire" it is not: a key looked up again in the same instant is asked for again
  (`ServedAgainExactly`, at -1; `ServedExactlyWhileLive`).
* `Require` from a body can wait for ever: two threads whose bodies require each other's types
  block each other (`MutualRequireHappens`). A call gets in exactly if no other thread has a run
  of its type open (`EntersExactly`), so a body never waits for its own type (`BodyEntersAgain`).

## Model

| member | source | states |
|---|---|---|
| FutexSemaphore.StepKeepsInv | gloop/base/futex.h:206-263 | every atomic step of waiter, posters and kernel keeps the protocol's invariant and is a step of a counting semaphore |
| FutexSemaphore.RunRefines | gloop/base/futex.h:206-263 | every interleaving shows only what an atomic counting semaphore could show, and ends with the same number of permits |
| FutexSemaphore.SpecConserves | gloop/base/futex.h:89-99 | a counting semaphore conserves permits: left plus acquired is initial plus posted, so giving up consumes nothing |
| FutexSemaphore.Conservation | gloop/base/futex.h:206-263 | the same of the futex code, for every run: successful waits never exceed initial value plus posts, although a timeout raises the counter for a moment |
| FutexSemaphore.CounterRange | gloop/base/futex.h:206-263 | the counter stays between -1 and initial value plus posts |
| FutexSemaphore.OneWaker | gloop/base/futex.h:251-263 | at most one poster is in the wake loop, and one is there exactly if a committed waiter has not been woken and a permit is posted |
| FutexSemaphore.NoLostWakeup | gloop/base/futex.h:209-262 | a sleeping waiter with a permit posted always has a poster whose next wake wakes it |
| FutexSemaphore.RankBoundsDelay | gloop/base/futex.h:209-262 | with a permit posted, the steps until the waiter acquires it are bounded by a rank, each new post or signal interruption costing at most three, and it does not give up |
| FutexSemaphore.WaiterCannotStarve | gloop/base/futex.h:226-262 | from any reachable state: at most nine steps plus three for each new post or signal interruption, and no giving up |
| FutexSemaphore.NeverStuck | gloop/base/futex.h:209-262 | with a permit posted there is always a step that makes progress |
| FutexSemaphore.DeadlineIsKept | gloop/base/futex.h:222-249 | a timed wait heeds its deadline through every interruption and reload, until a permit is posted |
| FutexSemaphore.TimedWaitCanGiveUp | gloop/base/futex.h:222-249 | however a timed wait has run, while no permit is there at most five steps, without a new call, make it give up and leave an idle semaphore |
| FutexSemaphore.UntimedWaitNeverGivesUp | gloop/base/futex.h:206-220 | a wait without a deadline never gives up, in any run |
| FutexSemaphore.InterruptIsHarmless | gloop/base/futex.h:206-249 | an interrupted sleeper can go back to sleep with its deadline, unseen by callers, and nothing else has changed |
| FutexSemaphore.PostsNeverWait | gloop/base/futex.h:251-263 | any number of threads can post one after the other in any state; each adds one permit |
| FutexSemaphore.EveryBehaviourOccurs | gloop/base/futex.h:206-263 | the converse of the refinement: whatever an atomic counting semaphore can show, some run of the code shows |
| ArenaMath.MaskIsRemainder | gloop/base/arena.cc:199 | for a power of two, and-ing with the alignment less one is the remainder |
| ArenaMath.PowerOfTwoTest | gloop/base/arena.cc:368 | the and-test accepts exactly the powers of two |
| ArenaMath.GCD | gloop/base/arena.cc:253-260 | the loop computes the greatest common divisor |
| ArenaMath.GcdDivides | gloop/base/arena.cc:253-260 | the result divides both arguments |
| ArenaMath.GcdGreatest | gloop/base/arena.cc:253-260 | every common divisor divides it |
| ArenaMath.LcmIsLeast | gloop/base/arena.cc:262-270 | the product over the GCD is a common multiple and divides every other one |
| ArenaMath.LeastCommonMultiple | gloop/base/arena.cc:262-270 | both branches of the code compute it |
| ArenaMath.LcmOfPowers | gloop/base/arena.cc:301-309 | of two powers of two it is the larger |
| ArenaSpec.AdjustedAlignmentOfPower | gloop/base/arena.cc:305-311 | the alignment of a new block is the larger of the requested one and a page or 8, and a power of two |
| ArenaSpec.AdjustedSizeFits | gloop/base/arena.cc:317-330 | a new block is at least as large as asked for, and whole pages in a page-aligned arena |
| ArenaSpec.FreshIsAligned | gloop/base/arena.cc:301-336 | a new block starts on the requested boundary, and on page boundaries when they are asked for |
| ArenaSpec.SatisfyAlignmentFinds | gloop/base/arena.cc:198-210 | the bump pointer moves to the first boundary, exactly if that is inside the block |
| ArenaSpec.MakeNewBlockSucceeds | gloop/base/arena.cc:242-247 | the CHECK in MakeNewBlock cannot fail |
| ArenaSpec.GetMemoryGrants | gloop/base/arena.cc:361-397 | allocation aborts exactly for the stated alignments, and otherwise grants an aligned region apart from all live ones, keeping the invariant |
| ArenaSpec.AdjustKeeps | gloop/base/arena.cc:442-458 | resizing the last allocation keeps the invariant |
| ArenaSpec.TrimKeeps | gloop/base/arena.h:497-500 | shrinking any other region keeps it too |
| ArenaSpec.FreeKeeps | gloop/base/arena.h:365-374 | freeing keeps it, whether or not memory is reclaimed |
| ArenaSpec.ResetKeeps | gloop/base/arena.cc:217-233 | Reset always succeeds on a sound arena and leaves a sound empty one |
| ArenaSpec.ConstructWorks | gloop/base/arena.cc:123-166 | construction fails exactly if the first block is too short to reach an 8-byte boundary |
| ArenaSpec.ReallocKeeps | gloop/base/arena.cc:478-501 | Realloc keeps the invariant and aborts exactly if it has to move and allocation aborts |
| ArenaSpec.CopyKeepsBytes | gloop/base/arena.cc:486-488 | copying into a region apart from the live ones keeps all their bytes |
| ArenaSpec.ReallocKeepsBytes | gloop/base/arena.cc:478-501 | the bytes common to both sizes survive and no other region changes |
| ArenaSpec.OpKeepsInv | gloop/base/arena.cc:217-458 | every operation keeps the invariant and aborts exactly as described |
| ArenaSpec.RunIsSafe | gloop/base/arena.h:350-374 | over every run of allocations, frees, shrinks, reallocs and resets: live regions are disjoint, inside one block, clear of the free tail; bytes_allocated is exact; added blocks are whole pages when asked for |
| ArenaSpec.UsualAlignmentsNeverAbort | gloop/base/arena.cc:305-311 | no power of two up to 1 MB makes a CHECK fail, with pages of at most 1 MB |
| ArenaSpec.ResizesInPlaceExactly | gloop/base/arena.cc:442-458 | a live region is resized in place exactly if it is the last allocation and the block has room |
| ArenaSpec.FreeUndoesAlloc | gloop/base/arena.h:365-374 | freeing what was just allocated gives the memory back, up to alignment padding |
| ArenaSpec.EmptyMeansNothingLive | gloop/base/arena.h:331-334 | an arena that says it is empty holds nothing |
| ArenaSpec.FreeEmptiesExactly | gloop/base/arena.h:331-374 | freeing a region empties the arena exactly if it is the last allocation, begins where an empty arena begins, and no block was added |
| ArenaSpec.NothingLiveNeedNotBeEmpty | gloop/base/arena.h:331-374 | in every new arena with room for two regions, allocating both and freeing both in either order leaves an arena that is not empty |
| ArenaSpec.AllocStaysPaid | gloop/base/arena.cc:370-391 | one allocation keeps the accounting behind the fragmentation bound |
| ArenaSpec.RunStaysPaid | gloop/base/arena.cc:370-391 | and so does every sequence of them |
| ArenaSpec.FragmentationBound | gloop/base/arena.cc:370-391 | for any plain Alloc calls on an arena that owns its first block and is not page-aligned, three times what was obtained beyond that block is at most four times what was requested |
| ArenaAsserts.FittingBlockMeetsAsserts | gloop/base/arena.h:350-362 | either assertion holds if the current block is no larger than the block size |
| ArenaAsserts.AssertAfterNewBlock | gloop/base/arena.cc:319-326 | right after a call that opens a block, the last allocation fits, and the rest does exactly if the block was rounded up by no more than the request |
| ArenaAsserts.AssertCanFail | gloop/base/arena.h:351 | with blocks of 1040 bytes and alignments 1 and 64, neither assertion is an invariant of a new arena |
| ArenaAsserts.AssertsHoldOnRuns | gloop/base/arena.h:350-362 | both hold after every run whose alignments make no block larger |
| ArenaAsserts.RoundsUpExactly | gloop/base/arena.cc:305-330 | an alignment makes a block of the usual size larger exactly if the block size is above its boundary of more than 16 and no multiple of it, or is no whole number of pages in a page-aligned arena |
| ArenaAsserts.RoundingBreaks | gloop/base/arena.cc:317-330 | for every such alignment there is a run from a new arena that breaks the first assertion, and one that breaks the second |
| ArenaAsserts.AssertIsInvariantExactly | gloop/base/arena.h:351 | over all runs from a new arena that ask only for alignments in a set, each assertion is an invariant if and only if none of them makes a block larger |
| ArenaObject.System.Allocate | gloop/base/arena.cc:72-83 | memory from the system is new and aligned |
| ArenaObject.System.Deallocate | gloop/base/arena.cc:85-99 | memory is given back with the size and alignment it was obtained with |
| ArenaObject.Memory.Memcpy | gloop/base/arena.cc:488 | the byte loop copies exactly the given range |
| ArenaObject.BlockTable.BlockCount | gloop/base/arena.cc:190-194 | the count over the sixteen inline slots and the overflow vector is exact |
| ArenaObject.BlockTable.Record | gloop/base/arena.cc:283-294 | a block goes to the next inline slot or to the vector |
| ArenaObject.BlockTable.Add | gloop/base/arena.cc:331-336 | a new block is obtained, recorded, and apart from all others |
| ArenaObject.BlockTable.FreeBlocks | gloop/base/arena.cc:411-428 | every block but the first is given back exactly once |
| ArenaObject.BlockTable.Release | gloop/base/arena.cc:168-183 | the system ends with exactly what others hold; an external first block is never given back |
| ArenaObject.BaseArena.constructor | gloop/base/arena.cc:123-166 | a new arena is sound, empty, and owns its first block or borrows it |
| ArenaObject.BaseArena.IsEmpty | gloop/base/arena.h:331-334 | the answer is right, and yes means that nothing is held |
| ArenaObject.BaseArena.SatisfyAlignment | gloop/base/arena.cc:198-210 | the fields move as the specification says, or stay |
| ArenaObject.BaseArena.Adjust | gloop/base/arena.cc:301-330 | computes the specified alignment and size; fails exactly above 1 MB |
| ArenaObject.BaseArena.AllocNewBlock | gloop/base/arena.cc:280-349 | adds the specified block and its size to bytes_allocated |
| ArenaObject.BaseArena.MakeNewBlock | gloop/base/arena.cc:242-247 | refines the specification of MakeNewBlock |
| ArenaObject.BaseArena.FindPlace | gloop/base/arena.cc:382-387 | a small object goes to the rest of the block or to a new block |
| ArenaObject.BaseArena.TakeBlock | gloop/base/arena.cc:370-380 | a large object gets a block of its own and moves no pointer |
| ArenaObject.BaseArena.GetMemoryFallback | gloop/base/arena.cc:361-397 | refines its specification in every branch |
| ArenaObject.BaseArena.GetMemory | gloop/base/arena.h:350-362 | the fast path and the fallback together refine the specification |
| ArenaObject.BaseArena.ReturnMemory | gloop/base/arena.h:365-374 | gives back the last allocation and nothing else |
| ArenaObject.BaseArena.AdjustLastAlloc | gloop/base/arena.cc:442-458 | resizes the last allocation or changes nothing |
| ArenaObject.BaseArena.ResetBase | gloop/base/arena.cc:217-233 | refines the specification of Reset |
| ArenaObject.BaseArena.AllocAligned | gloop/base/arena.h:435-440 | an aligned region apart from everything live, or an abort exactly when specified |
| ArenaObject.BaseArena.Free | gloop/base/arena.h:456 | keeps the object sound and is the specified operation |
| ArenaObject.BaseArena.Shrink | gloop/base/arena.h:497-500 | keeps the object sound and is the specified operation |
| ArenaObject.BaseArena.Realloc | gloop/base/arena.cc:478-501 | keeps the object sound; memory is as the specification says, of which ReallocKeepsBytes speaks |
| ArenaObject.BaseArena.Reset | gloop/base/arena.cc:217-233 | keeps the object sound and what others hold, and forgets all regions |
| ArenaObject.BaseArena.Destroy | gloop/base/arena.cc:168-183 | everything obtained over the lifetime has been given back, and nothing else |
| SafeArena.StepKeepsSafe | gloop/base/arena.h:537-612 | every lock section and every copied byte of every thread keeps the arena sound and every Realloc in progress in order |
| SafeArena.Initial | gloop/base/arena.h:519-535 | a new arena shared by threads that have not called it yet is in order |
| SafeArena.CallSurvives | gloop/base/arena.cc:503-529 | whatever other threads do, a Realloc in progress keeps its region and sizes, and the region keeps the bytes it had at the call |
| SafeArena.FinishDelivers | gloop/base/arena.cc:503-529 | when it returns, the new region has the old bytes and is apart from every thread's live regions |
| SafeArena.ReallocIsAtomic | gloop/base/arena.cc:503-529 | over every interleaving, the new region begins with what the old one held at the call |
| SafeArena.FreeEffect | gloop/base/arena.h:561-564 | Free takes exactly that region from its owner; the bytes go back to the block exactly if it is the last allocation |
| SafeArena.AllocEffect | gloop/base/arena.h:537-545 | the caller has exactly one more region, of that size, aligned, not null, and apart from all others |
| SafeArena.AllocNothing | gloop/base/arena.cc:362-366 | asking for nothing changes nothing |
| SafeArena.ShrinkEffect | gloop/base/arena.h:605-609 | the region is cut where it is, or given up at size 0, and the bump pointer follows if it is the last allocation |
| SafeArena.StaysPutExactly | gloop/base/arena.cc:505-519 | Realloc keeps the region in place exactly if it does not grow, or is the last allocation and its block has room |
| SafeArena.StartReallocEffect | gloop/base/arena.cc:505-511 | in place the region gets its new size, or is given up at 0; otherwise the first lock section changes nothing |
| SafeArena.ReallocInPlaceMovesBump | gloop/base/arena.cc:505-511 | in place, the bump pointer moves to the new end of the last allocation, and no byte of the block is lost |
| SafeArena.TakeNewEffect | gloop/base/arena.cc:513-515 | the second lock section adds the new region and keeps the old one |
| SafeArena.CopyByteEffect | gloop/base/arena.cc:516 | each step of the copy writes one saved byte into the new region, and nothing else |
| SafeArena.FinishEffect | gloop/base/arena.cc:528 | on return the old region is given up, and no byte or other region changes |
| SafeArena.WriteEffect | gloop/base/arena.h:537-545 | a client writing a byte of its region changes that byte of it |
| SafeArena.StepSparesOthers | gloop/base/arena.h:537-612 | no step of one thread changes which regions another holds, what is in them, or where it is inside Realloc |
| SafeArena.RunSparesOthers | gloop/base/arena.h:537-612 | over any run in which a thread takes no step, it keeps exactly its regions, with their bytes |
| SafeArena.NobodyWaitsForOthers | gloop/base/arena.h:537-612 | whatever other threads are in the middle of, a thread may free, shrink, reallocate and write what it holds |
| SafeArena.AllocatesExactly | gloop/base/arena.h:537-545 | and may allocate exactly unless GetMemory stops the process |
| SafeArena.ReallocGoesOn | gloop/base/arena.cc:503-529 | a Realloc in progress can always take its next step, unless its allocation stops the process |
| InitRegistration.Registry.GetInitializerData | gloop/base/googleinit.cc:204-221 | finds or makes the record of a name, or fails if another object has it |
| InitRegistration.Registry.AddInitializer | gloop/base/googleinit.cc:342-356 | the constructor of an initializer, as one registration |
| InitRegistration.Registry.AddDependency | gloop/base/googleinit.cc:358-377 | the constructor of a dependency, as one registration |
| InitRegistration.TableDescribes | gloop/base/googleinit.cc:342-377 | the table says exactly which names, objects, dependencies and constructions were registered |
| InitRegistration.RegistersIffConsistent | gloop/base/googleinit.cc:204-221 | registration gets past its CHECKs exactly if no name has two objects and no initializer comes twice |
| InitRegistration.DescriptionIsUnique | gloop/base/googleinit.cc:342-377 | only one table describes given registrations |
| InitRegistration.OrderIsIrrelevant | gloop/base/googleinit.cc:342-377 | every permutation of the constructor calls of one type gives the same table |
| InitRegistration.TypesAreTables | gloop/base/googleinit.cc:327-340 | the table of each type is that of its own registrations, and registration succeeds exactly if it does for every type |
| InitRegistration.TypesIgnoreOrder | gloop/base/googleinit.cc:327-377 | every permutation of the constructor calls of all types gives the same tables, or fails alike |
| InitRegistration.RegistrationLinks | gloop/base/googleinit.cc:375-376 | every dependency has a record in the table of its type, so the sanity CHECK on it holds |
| InitTypes.InNameOrderIsSorted | gloop/base/googleinit.cc:226-229 | the tables are walked in strictly ascending name order, each name once |
| InitTypes.NameLeqIsLexicographic | gloop/base/googleinit.cc:193 | name order is lexicographic: a prefix, or smaller at the first difference |
| InitTypes.RunIgnoresRegistrationOrder | gloop/base/googleinit.cc:223-235 | registrations in any order leave tables fit to run, and a run of a type from any state is the same: same bodies, same order |
| InitTypes.RegistrationIsReady | gloop/base/googleinit.cc:342-377 | registration that gets past its CHECKs leaves linked tables in which every constructed object has one name |
| InitOrder.RunsExactly | gloop/base/googleinit.cc:428-491 | a finished run has run exactly what its roots reach, besides what was done before |
| InitOrder.RootsRunInTurn | gloop/base/googleinit.cc:223-249 | of two initializers, the one that an earlier root needs first has ended before the other begins, for any dependencies and bodies |
| InitOrder.DependenciesInTurn | gloop/base/googleinit.cc:454-462 | the same for the declared dependencies of an initializer |
| InitOrder.BodyInTurn | gloop/base/googleinit.cc:467-474 | the same for the Require calls of a body, after the body has begun |
| InitOrder.EnteredInRun | gloop/base/googleinit.cc:428-491 | every initializer a run executes was entered at a point of that run to which the two statements above apply |
| InitTypes.KindRunsInNameOrder | gloop/base/googleinit.cc:226-229 | an earlier name of a type has ended before a later one begins, unless a name no later than the earlier one needs the later one |
| InitTypes.DependenciesRunInNameOrder | gloop/base/googleinit.cc:454-462 | the same for the dependency names of every initializer a run executes, from where it was entered |
| InitTypes.NewScheduler | gloop/base/googleinit.cc:327-377 | a scheduler over the graph and the name order that the tables of all types give |
| InitTypes.RunInitializers | gloop/base/googleinit.cc:379-388 | on that scheduler: finishes if and only if the type reaches no cycle and only constructed initializers; then exactly what it reaches has been run, in name order |
| InitSchedule.VisitOrderly | gloop/base/googleinit.cc:428-491 | a visit begins no body twice, and none before its dependencies have ended |
| InitSchedule.VisitStops | gloop/base/googleinit.cc:432-449 | where a visit stops there is a walk that closes on itself or leads to something never constructed |
| InitSchedule.EdgeGoesBack | gloop/base/googleinit.cc:454-482 | along an edge of the combined graph, bodies end earlier |
| InitSchedule.NoCycleIsDone | gloop/base/googleinit.cc:428-491 | nothing on a cycle is ever done |
| InitSchedule.RunStopsExactly | gloop/base/googleinit.cc:223-249 | a run finishes if and only if the graph of dependencies and Require calls reachable from its roots has no cycle and only constructed initializers; otherwise it stops at the CHECK |
| InitSchedule.FinishedRun | gloop/base/googleinit.cc:428-491 | then everything reachable is done, each body began and ended once, after all it transitively depends on |
| InitSchedule.LaterCallsAreNoOps | gloop/base/googleinit.cc:434-436 | later calls run nothing |
| InitSchedule.Scheduler.RunIfNecessary | gloop/base/googleinit.cc:428-491 | the marks and tables, updated in place, follow the depth-first specification |
| InitSchedule.Scheduler.RunEach | gloop/base/googleinit.cc:454-462 | the loops over dependencies, requirements and tables do too |
| InitSchedule.Scheduler.Require | gloop/base/googleinit.cc:390-394 | a call for something done changes nothing |
| InitSchedule.Scheduler.RunAll | gloop/base/googleinit.cc:223-235 | for any listing of a type: finishes if and only if there is no reachable cycle; afterwards all listed are done and their table is gone; InitTypes.RunInitializers instantiates it |
| InitThreads.StepKeepsInv | gloop/base/googleinit.cc:253-287 | every step of every thread keeps run counts, runners, marks, stacks and locks consistent |
| InitThreads.OneStack | gloop/base/googleinit.cc:253-287 | no initializer is being run by two threads |
| InitThreads.StartsOnce | gloop/base/googleinit.cc:467-482 | a body about to start has never started on any thread |
| InitThreads.EveryRunIsSafe | gloop/base/googleinit.cc:253-287 | in every run: one thread per type between BeginRun and EndRun, run_count_ is its nesting depth, is_active_ marks exactly what that thread is running, bodies begin at most once and after their dependencies |
| InitThreads.CycleCheckIsLocal | gloop/base/googleinit.cc:432-433 | the cycle CHECK fires exactly if the thread itself is running the initializer, never because of another thread |
| InitThreads.InsideMeansRunner | gloop/base/googleinit.cc:283-287 | the debug checks of RunIfNecessary and EndRun hold |
| InitThreads.HolderCanMove | gloop/base/googleinit.cc:428-491 | a thread that holds the table lock can always go on, unless the cycle CHECK fires |
| InitThreads.ReturnsWithAllDone | gloop/base/googleinit.cc:379-394 | when Require or RunInitializers returns, everything it was asked for is done, whichever thread has run it |
| InitThreads.EntersExactly | gloop/base/googleinit.cc:257-281 | when the table lock is free, a call gets past BeginRun exactly if no other thread has a run of that type open |
| InitThreads.BodyEntersAgain | gloop/base/googleinit.cc:237-281 | a body can always Require more of its own type at once, and that run is one level deeper, at least the second |
| InitThreads.NestedRequire | gloop/base/googleinit.cc:237-281 | a run from the start in which run_count_ reaches two |
| InitThreads.SomebodyCanMove | gloop/base/googleinit.cc:379-491 | while a call is in progress and no cycle CHECK fires, some thread can go on without a new call, if only by its body returning |
| InitThreads.MutualRequireBlocks | gloop/base/googleinit.cc:257-281 | two threads that hold a type each can neither of them enter the other's |
| InitThreads.MutualRequireHappens | gloop/base/googleinit.cc:257-281 | such a state is reached from the start: bodies that Require across types can deadlock |
| CensusHandle.DebitsAreCovered | gloop/base/censushandle.h:69-114 | handles that are not counted yet are fewer than the handles that have the entry |
| CensusHandle.LastReference | gloop/base/censushandle.h:167-178 | a count of one seen by the holder of a reference means that no handle and no other operation has one |
| CensusHandle.StepGains | gloop/base/censushandle.h:60-136 | what each store, Ref, decrement and deletion does to the number of references |
| CensusHandle.StepKeepsInv | gloop/base/censushandle.h:60-184 | every step of every thread keeps the count equal to the number of references |
| CensusHandle.DeletedOnceAndLast | gloop/base/censushandle.h:163-184 | in every run, an entry about to be deleted was not deleted before, no handle has it, and no other operation holds or touches it |
| CensusHandle.NoUseAfterDelete | gloop/base/censushandle.h:60-184 | no step touches a deleted entry |
| CensusHandle.HandlerReadsAlive | gloop/base/censushandle.h:69-136 | between any two steps every handle is null or leads to a live entry |
| CensusHandle.CountLagsBehind | gloop/base/censushandle.h:69-88 | between set_entry and Ref, whatever other threads do, the count is the handles and held references less the operations that have stored the entry but not counted it, of which there is at least one; alone, it is one below the number of handles |
| CensusHandle.QuietCounts | gloop/base/censushandle.h:60-184 | with no operation under way, an entry is alive exactly if a handle has it, the count is the number of such handles, and otherwise it was deleted exactly once |
| CensusHandle.DeletesExactlyWhenLast | gloop/base/censushandle.h:167-184 | in every run, the load or the decrement of Unref leads to deletion exactly if no handle and no other operation has the entry |
| CensusHandle.OperationTakesEffect | gloop/base/censushandle.h:60-136 | whatever other threads do, at its last store a copy has left both handles with the source's entry, a move has left the source null, a self-move nothing, Swap has exchanged them, and a destroyed handle is gone, all in terms of the entries when it began; before that it has taken at most one step |
| CensusHandle.OperationEnds | gloop/base/censushandle.h:60-136 | an operation is over after at most five further steps of its own, and never waits |
| CensusHandle.UnwrittenStays | gloop/base/censushandle.h:60-136 | over any run, a handle that no step writes stays as it was |
| CensusHandle.FreeHandlesAllowAnything | gloop/base/censushandle.h:73-80 | callers owe only that nobody else is inside an operation on the same handles; self-copy, self-move and self-swap are allowed |
| CensusHandle.CopiesShareTheirSource | gloop/base/censushandle.h:60-80 | any number of threads may copy one handle at a time |
| ContextScopes.WithContext.constructor | gloop/base/context.cc:279-288 | installs a new Context object with the given values |
| ContextScopes.WithContext.Close | gloop/base/context.cc:290-301 | puts the previous object back and says whether the scope check passed |
| ContextScopes.WithTrace.constructor | gloop/base/context.cc:303-332 | replaces the trace context, or keeps it when passed to itself |
| ContextScopes.WithTrace.Close | gloop/base/context.cc:334-341 | puts the previous trace context back |
| ContextScopes.WithDeadline.constructor | gloop/base/context.cc:343-352 | the deadline becomes the nearer of the two |
| ContextScopes.WithDeadline.Close | gloop/base/context.cc:354-359 | puts the old deadline back if it had been swapped |
| ContextScopes.WithCensus.constructor | gloop/base/context.cc:361-370 | swaps the census handle in |
| ContextScopes.WithCensus.Close | gloop/base/context.cc:372-374 | swaps it out |
| ContextScopes.WithStatus.constructor | gloop/base/context.cc:376-379 | sets the thread status |
| ContextScopes.WithStatus.Close | gloop/base/context.cc:381-383 | puts the old one back |
| ContextScopes.Run | gloop/base/context.cc:279-383 | every nested program ends with the same Context object and values, but for a status it set; the scope check never fails; what is seen inside is what the scopes say |
| ContextScopes.RunWithContext | gloop/base/context.cc:279-301 | a WithContext deletes the Context it allocated and no other, and leaves the outer one as it was |
| ContextScopes.DeadlineIsMinimum | gloop/base/context.cc:343-359 | at every point of every program the deadline is the minimum of that of the innermost WithContext and all WithDeadlines since |
| ContextScopes.TraceIsInnermost | gloop/base/context.cc:303-374 | at every point of every program the trace is that of the innermost scope that brought one, and the census handle that of the innermost that brought a trace or a handle |
| ContextScopes.StatusIsInnermost | gloop/base/context.cc:376-383 | where only scopes set it, the thread status is that of the innermost scope that brought one |
| ContextScopes.FirstFailureIsFirstCrossing | gloop/base/context.cc:290-300 | the scope check first fails exactly where an object is closed while a later one is open |
| ContextScopes.CheckPassesIffNested | gloop/base/context.cc:290-300 | over a whole run it never fails if and only if scopes close last-in first-out |
| ArgvRewrite.FilterPartitions | gloop/base/commandlineflags.cc:980-991 | flags and positional arguments together are all arguments |
| ArgvRewrite.FilterIsStable | gloop/base/commandlineflags.cc:986-991 | flags keep their order |
| ArgvRewrite.SelectionAgainstFilter | gloop/base/commandlineflags.cc:980-991 | the positional arguments are all that is in their set exactly if no other argument shares a pointer |
| ArgvRewrite.KeepsAllIffUnshared | gloop/base/commandlineflags.cc:980-1000 | the rewrite keeps every argument if and only if that holds, and then is a stable partition |
| ArgvRewrite.SharedPointerIsLost | gloop/base/commandlineflags.cc:986-991 | three arguments of which one is lost |
| ArgvRewrite.CompactFlags | gloop/base/commandlineflags.cc:986-991 | the loop moves the flags to the front and overwrites no slot before reading it |
| ArgvRewrite.KeepFlags | gloop/base/commandlineflags.cc:980-1000 | program name, flags, positional arguments; the result is where the latter begin; argc and the arguments are kept exactly if no pointer is shared; nothing beyond argc changes |
| ArgvRewrite.RemoveFlags | gloop/base/commandlineflags.cc:963-978 | the positional arguments end where argv ended, and no byte or other region changes |
| FlagFile.SplitJoins | gloop/base/commandlineflags.cc:557 | splitting loses nothing and leaves no separator |
| FlagFile.LineForms | gloop/base/commandlineflags.cc:558-575 | what a line means, however far it is indented: one dash or two name the same flag, a hash or nothing is skipped, anything else is a list of filenames |
| FlagFile.NamesExtendRun | gloop/base/commandlineflags.cc:610-631 | a line of filenames continues the run before it or starts over |
| FlagFile.FlagEndsRun | gloop/base/commandlineflags.cc:569-572 | a flag line ends a run and does not change whether flags apply |
| FlagFile.SkippedChangesNothing | gloop/base/commandlineflags.cc:566-567 | blank and comment lines do neither |
| FlagFile.FlagParser.AnyGlobMatches | gloop/base/commandlineflags.cc:616-631 | the loop over the words finds a match exactly if there is one |
| FlagFile.FlagParser.ProcessNames | gloop/base/commandlineflags.cc:610-631 | flags then apply if a glob matches, or if they did within the same run |
| FlagFile.FlagParser.ProcessLine | gloop/base/commandlineflags.cc:557-632 | one line moves the automaton as the runs of filename lines say, and sets its flag exactly if it applies |
| FlagFile.FlagParser.ProcessOptionsFromString | gloop/base/commandlineflags.cc:548-635 | acts on a flag line exactly if no filename line precedes it or the latest run of them matches, in order, and leaves the depth as it was |
| FlagFile.FlagParser.ProcessSingleOption | gloop/base/commandlineflags.cc:454-491 | records errors, and follows a flagfile at once |
| FlagFile.FlagParser.ProcessFlagfile | gloop/base/commandlineflags.cc:383-408 | terminates for any contents of any files, refuses to go deeper than 101 levels, goes on after an unreadable file, and leaves the depth as it was |
| FlagFile.CircleIsReported | gloop/base/commandlineflags.cc:387-390 | files that include each other in a circle end in the recursion error, from whatever depth they are read |
| NssCache.SharedNeverChanges | gloop/base/nsscache.cc:331-344 | no step modifies a record once it is shared |
| NssCache.StepKeepsInv | gloop/base/nsscache.cc:248-352 | every step of every thread keeps cache, records and answers consistent |
| NssCache.SharedIsForever | gloop/base/nsscache.cc:248-352 | a record handed to a caller stays as it is for the rest of the run |
| NssCache.EveryAnswerIsGenuine | gloop/base/nsscache.cc:248-352 | every answer is what the system replied for the same key, to this call or to one whose record was stamped at most its time to live before |
| NssCache.ServedExactlyWhileLive | gloop/base/nsscache.cc:249-272 | a call is served from the cache exactly if the record there is live; otherwise the record is dropped |
| NssCache.ServedAgainExactly | gloop/base/nsscache.cc:248-352 | a key looked up twice is served from the cache the second time exactly if no more than the time to live has passed since the stamp; with -1, in the same instant, it is asked for again |
| NssCache.CacheChangesOnlySo | gloop/base/nsscache.cc:249-344 | in every run, no step replaces a cached record; one is dropped exactly by a lookup that finds it expired, and added only by the end of the call that made it |
| NssCache.EndLeavesKeyCached | gloop/base/nsscache.cc:335-349 | after a call its key is cached, with the call's own record exactly if there was none; the caller gets its own record in any case |
| NssCache.StaysCached | gloop/base/nsscache.cc:249-344 | over any run in which no lookup of the key comes after its time to live, its record stays |
| NssCache.FirstToEndWins | gloop/base/nsscache.cc:335-344 | of any calls racing for a key, the first to end decides what is cached from then on |
| NssCache.RaceIsWonByTheFirst | gloop/base/nsscache.cc:335-349 | two threads miss and both ask: for all replies, stamps and times, both get their own reply, and a third lookup is served the first one exactly while it lives |
| NssCache.NegativeTtlNeverServes | gloop/base/nsscache.cc:51-53 | no answer of any run comes from a record with a negative time to live, unless the clock ran backwards |
| NssCache.Sizes | gloop/base/nsscache.cc:305-315 | the buffer sizes end at 1 GB, within the range of int |
| NssCache.GrowBuffer | gloop/base/nsscache.cc:281-317 | the loop ends after at most fifteen calls, at the first size that suffices or at 1 GB |

## Left out

- Widths of integers: counters, sizes and addresses are unbounded, so wrap-around of `size_t` near 2^64, of the 32-bit semaphore and of the reference count is not modelled.
- C++ memory orders: atomic operations are sequentially consistent steps.
- Raw futex calls, `Swap` and the bitset forms: only what the kernel promises the semaphore.
- Arena debug assertions and ASAN poisoning: modelled is the release build; the two assertions on block sizes are the subject of ArenaAsserts.
- The page size of the system is taken to be a power of two above 16.
- Running out of memory, and `nallocx`: the size it answers is a parameter, no smaller than the size asked for.
- `Strdup`, `Memdup`, `Snprintf`, the Gladiator classes and STL glue: thin layers over the arena.
- The fields of BaseArena are divided between two classes, BlockTable and BaseArena.
- `Reset` of a SafeArena while other threads use it: its callers exclude that.
- FutexSemaphore, SafeArena, InitThreads, CensusHandle and NssCache are machines over values: steps of threads on shared state, not objects on the heap.
- The map from types to their tables is modelled on values; the table of one type is an object.
- `active_initializer_`, which only messages use; registering initializers after they have begun to be executed, `RunInitializers` called from a body, the set of running modules, and timing messages.
- InitThreads: threads waiting for each other over three or more types; MutualRequireHappens shows two.
- TraceContext is opaque but for its census handle; its hooks, labels and `context_origin` are not modelled.
- WithContext with hardening switched off: what follows the first failed check.
- Flag parsing, undefok, error reports and return messages of the flag parser.
- `--fromenv` and `--tryfromenv`, whose recursion is bounded only if no environment value leads back to them.
- The reentrant form of the NSS lookup and the contents of passwd and group records.
- Logging, InitGoogle, stack traces, system call wrappers, crash handling, counters and host names: operating system plumbing, or settled by reading one branch.
