# Deadline-driven multi-threaded executor: a verified model

This project models a ROS2 executor that schedules callback chains by deadline on several
threads, together with the response-time analysis that comes with it, and proves properties of
the model with Dafny. `dafny verify dfyconfig.toml` checks all of it.

Four parts fit together.

- **Deadline ring and release clock** (`ReleaseClock`, `SlotTable`, `Chain`, `RingLimits`). The callbacks of a
  chain share `N = ceil(deadline / period)` queues. A timer take advances the release clock and
  pushes the next instance's deadline one slot ahead; the last callback pops its slot. The ring is
  shown to behave like an unbounded table from instance number to deadline, for a chain with its
  own timer and for one fed by another chain's; `RingLimits` says exactly which rings do.
- **Selection** (`Executable`, `ExecutableHeap`, `Charging`, `Fleets`, `Strategy`, `Setup`,
  `Spinning`, `EarliestDeadline`, `Experiment`). Executables and rings are objects shared through
  references, as in the program; a round clears, collects, filters by the wait set, and pops a heap
  that compares live keys. `Fleets` is the same state as one value: what the objects do refines its
  steps, and each of its steps is a take of one of the first part's chains. Over any number of
  rounds what is handed out is earliest deadline first by the instances' queued deadlines.
  `Experiment` is one program, from its set-up on, with all its chains side by side and chain 1 fed
  by chain 0's timer.
- **Thread protocol** (`Protocol`, `Progress`, `Exclusion`, `LockedRound`). n threads interleave over
  one lock, the set of scheduled timers and one flag per callback group.
- **Response-time searches** (`TaskSystem`, `Crossing`, `ResponseTime2`, `ResponseTime1`,
  `Schedule`, `Tightness`, `ExecutorAnalysis`). The two searches on arbitrary task systems, on
  wrapping machine words; what their exit test means for an m-thread schedule, and that the value
  reported cannot be improved; and that the executor's clocks release, before and in the analysed
  window, no more instances than the analysis charges, and for each term as many.

`Arithmetic` and `Options` hold what these share.

Notation: T period, D relative deadline, C chain runtime, L runtime of the last callback, m threads;
k timer takes, j last-callback takes, i takes of some callback (its next instance).

## What the code does where its comments or purpose suggest otherwise

- The duplicate-timer branch resets the group flag inside the lock, as its comment says, but the
  discarded executable is destroyed after the lock is released and stores the flag once more.
  `Protocol.Config.late` switches that second store; `Exclusion` proves what is lost by it, group
  by group, and that nothing is lost without it.
- A timer take more than one period early moves the release clock too far, because the distance is
  taken in absolute value (`ReleaseClock.NextIsLeastExactly`).
- The comparator is not irreflexive on a deadline entry without a queued deadline
  (`Executable.StrictWeakOrderExactly`); a heap still pops a greatest entry.
- The mirrored push puts chain 0's deadline, at chain 0's index, into chain 1's ring (lines 816-823
  of `priority_memory_strategy.hpp`). That ring keeps its table if and only if both chains have
  equally many slots (`RingLimits.RefinesExactly`), and chain 1's ready callbacks read the entries
  of their own instances if and only if, besides, it has `ceil(D_1/T_0)` slots or only one callback
  of its own (`Experiment.OwnEntryExactly`). From instance 1 on those entries are their own
  deadlines if and only if both chains have the same relative deadline
  (`Experiment.OwnDeadlineExactly`); where not, an instance can be passed over for one that is due
  later (`EarliestDeadline.PassedOverExactly`).
- The experiment takes one reading per chain for the first release, and chain 1's goes to chain 0's
  timer (lines 209-212 and 224 of `arb_test.cpp`): chain 0's clock ends up at the second reading
  while its ring was seeded with the first. Whose entry a ready callback reads does not depend on
  that. What does is the deadline read for instance 0 (`Experiment.OwnDeadlineExactly`) and, from a
  difference of a whole turn of the ring on, the order within slot 0 (`Experiment.SortedExactly`).
- In the constrained-deadline search, the inner subtraction multiplies by the period where the
  commented-out version used whole periods. A term of it is monotone in the window only if the
  period is one tick or the runtime 0 (`ResponseTime1.TermMonotoneExactly`), and the search can
  report less than the arbitrary-deadline one (`ResponseTime1.AnalysesDisagree`); it does not where
  a condition on the task system holds (`ResponseTime1.OtherAnalysisNoLarger`).
- In the arbitrary-deadline search a window of 0 makes `min(..) - 1` wrap; the test cannot pass
  there, so the result is unaffected (`ResponseTime2.ComputeDemand`).

## Transcriptions

These members are the code's own steps; what they mean is what the members of the next section
prove about them. Lines are of `priority_memory_strategy.hpp` (strategy), `priority_executor.cpp`
(executor), `arb_test.cpp` (experiment), `theorem_2.cpp` and `theorem_1.cpp`.

- `ReleaseClock.Next`: strategy 805-829.
- `SlotTable.PushAt` and `SlotTable.PopAt`, with `Executable.DeadlineRing.PushBack` and `PopFront`:
  strategy 814 and 951-952. `SlotTable.MoveRing` is the two in the program's order, 807-831 and
  949-952; `Chain.After` and `Charging.ChargeRing` are both defined by it.
- `Chain.Seeded`: experiment 115-117 and 224-225. `Chain.After`: strategy 790-958.
- `Executable.PriorityExecutable`'s constructors: strategy 89-104 and 106-122.
- `Executable.Less`: strategy 157-240.
- `Charging.Charge`, `Charging.ChargeRing`, `Charging.MirrorRing` and `Fleets.HandOut`: strategy
  768-967.
- `Strategy.PriorityMemoryStrategy.ClearHandles`: strategy 288-304.
- `Setup.MarkCallback`: experiment 142-149 and 178-183, strategy 1266-1313.
- `Protocol.Do`: executor 576-630 and 695-707. After a subscription the flag is stored when the
  by-value parameter of `execute_subscription` (374) is destroyed, after anything else by
  `execute_any_executable`, which is not part of this model; both are the action `Finish`.
- `ResponseTime2.Demand`: theorem_2 41-53. `ResponseTime1.Demand`: theorem_1 51-65.

## Model

| member | source | states |
|---|---|---|
| `ReleaseClock.NextIsLeastExactly` | source_code/src/priority_executor/include/priority_executor/priority_memory_strategy.hpp:805-829 | the clock moves to the least grid instant strictly after the old release and not before now, if and only if the take is no earlier than one period before the release |
| `ReleaseClock.NextIsSymmetric` | source_code/src/priority_executor/include/priority_executor/priority_memory_strategy.hpp:805-829 | a take too early moves the clock as one that is late by as much |
| `ReleaseClock.RunSpacedOnGrid` | source_code/src/priority_executor/include/priority_executor/priority_memory_strategy.hpp:810-829 | over any run of timer takes at any times, releases lie on the first release's grid and any two differ by at least their distance in periods |
| `ReleaseClock.RunArrivalBound` | source_code/response_time_model/theorem_2.cpp:46 | any window of length w contains at most (w-1)/T + 1 releases of any run of the executor's clock |
| `Arithmetic.WrapsAround` | source_code/src/priority_executor/include/priority_executor/priority_memory_strategy.hpp:814 | what does not fit a 64-bit word or a 32-bit queue entry keeps its remainder |
| `SlotTable.PushExtends` | source_code/src/priority_executor/include/priority_executor/priority_memory_strategy.hpp:808-814 | pushing at (number of instances) mod N extends the table the ring stands for by one instance |
| `SlotTable.PopShrinks` | source_code/src/priority_executor/include/priority_executor/priority_memory_strategy.hpp:949-952 | popping the oldest instance's slot finds it non-empty, yields that instance's deadline and removes exactly it |
| `SlotTable.HeadOfSlot` | source_code/src/priority_executor/include/priority_executor/priority_memory_strategy.hpp:211-217 | the slot of a pending instance is non-empty and headed by the oldest instance in the same residue class |
| `SlotTable.TotalQueued` | source_code/src/priority_executor/include/priority_executor/priority_memory_strategy.hpp:807-831 | the ring queues exactly one deadline per unfinished instance |
| `Chain.SeedRefines` | source_code/src/priority_executor/src/arb_test.cpp:206-229 | a ring seeded with one reading and a clock set by the same or another one is the table that holds only instance 0's entry, with the clock at its release and every index 0 |
| `Chain.TakeRefines` | source_code/src/priority_executor/include/priority_executor/priority_memory_strategy.hpp:790-958 | one take of any callback keeps ring, clock and indices in step with the table, if a last take pops a released instance |
| `Chain.RunRefines` | source_code/src/priority_executor/include/priority_executor/priority_memory_strategy.hpp:807-831 | in every run whose pops are of released instances, for chains with their own timer and for a ring as long as the feeding timer's turn: slot s holds exactly the entries of instances j..k congruent to s mod N in order, the clock is the newest release, indices are take counts mod N, and 1 + k - j entries are queued |
| `Chain.EarlyPopStrands` | source_code/src/priority_executor/include/priority_executor/priority_memory_strategy.hpp:951-952 | a last take followed by a timer take keeps ring and table in step if and only if the popped instance had been released |
| `Chain.BacklogAtTake` | source_code/src/priority_executor/include/priority_executor/priority_memory_strategy.hpp:807-808 | when each unfinished instance still has time at a timer take, k - j < N = ceil(D/T) before it |
| `Chain.RunBacklog` | source_code/src/priority_executor/include/priority_executor/priority_memory_strategy.hpp:807-831 | in every run fed in chain order with timely timer takes, the timer is at most N instances ahead of the oldest unfinished one |
| `Chain.KeyOfPending` | source_code/src/priority_executor/include/priority_executor/priority_memory_strategy.hpp:207-218 | the deadline read for a pending instance is never later than the one queued for it, and is that one if and only if i < j + N |
| `Chain.ReadyReadsOwnDeadline` | source_code/src/priority_executor/include/priority_executor/priority_memory_strategy.hpp:205-234 | in every fed and timely run without 32-bit wrap, every callback that can be taken and competes in a sound ring competes with the entry of its own instance; that is the instance's release plus the chain's deadline if and only if the entry was made with the chain's deadline |
| `Chain.PlainReadsOwnDeadline` | source_code/src/priority_executor/include/priority_executor/priority_memory_strategy.hpp:205-234 | a chain with its own timer and ceil(D/T) queues: every ready callback competes with its own instance's absolute deadline |
| `Chain.SlotsSorted` | source_code/src/priority_executor/include/priority_executor/priority_memory_strategy.hpp:814 | in every admissible run without wrap each slot's queue is strictly increasing |
| `Chain.FedIsAdmissible` | source_code/src/priority_executor/include/priority_executor/priority_memory_strategy.hpp:949-952 | if every callback is taken only after its predecessor was taken for the same instance, every pop finds its instance |
| `RingLimits.RefinesExactly` | source_code/src/priority_executor/include/priority_executor/priority_memory_strategy.hpp:816-823 | a ring, fed by another chain's timer or not, behaves as the table in all runs in chain order and in time if and only if the timer's index goes around the whole of it, that is, for a fed one, both chains have equally many slots |
| `RingLimits.OutOfStepDiverges` | source_code/src/priority_executor/include/priority_executor/priority_memory_strategy.hpp:816-823 | in a longer ring, one turn of instances served one after the other, each timer at its release, leaves an instance in the wrong slot |
| `RingLimits.OutOfStepMisses` | source_code/src/priority_executor/include/priority_executor/priority_memory_strategy.hpp:816-823 | there, after such a turn and one more timer take, callback 1 is ready and finds its slot empty |
| `RingLimits.ShortRingMisreads` | source_code/src/priority_executor/include/priority_executor/priority_memory_strategy.hpp:205-218 | with more unfinished instances than slots, a ready callback that is not the last reads an entry that is not its instance's, in a run in chain order and in time |
| `RingLimits.OwnEntryExactly` | source_code/src/priority_executor/include/priority_executor/priority_memory_strategy.hpp:205-234 | in all fed, timely, non-wrapping runs every ready competing callback reads its own instance's entry, if and only if the chain has one callback, or the timer's index goes around the ring and either the ring has ceil(D/T) slots or more or only the last callback competes in it |
| `RingLimits.SortedExactly` | source_code/src/priority_executor/include/priority_executor/priority_memory_strategy.hpp:814 | with as many unfinished instances as slots, the queues are sorted in all such runs if and only if the first entry is earlier than one pushed a whole turn later |
| `Executable.BelowIsTotalPreorder` | source_code/src/priority_executor/include/priority_executor/priority_memory_strategy.hpp:164-234 | class, then the class's own criterion, is a total preorder |
| `Executable.LessRespectsOrder` | source_code/src/priority_executor/include/priority_executor/priority_memory_strategy.hpp:164-234 | comp(a,b) implies a <= b and !comp(a,b) implies b <= a, with or without missing deadlines |
| `Executable.StrictWeakOrderExactly` | source_code/src/priority_executor/include/priority_executor/priority_memory_strategy.hpp:219-226 | the comparator is a strict weak order on a set of keys if and only if no deadline entry's key is missing |
| `ExecutableHeap.Push` | source_code/src/priority_executor/include/priority_executor/priority_memory_strategy.hpp:422 | pushing keeps the heap ordered by live keys and adds exactly the entry |
| `ExecutableHeap.Pop` | source_code/src/priority_executor/include/priority_executor/priority_memory_strategy.hpp:585-588 | the entry popped is one to which no queued entry is preferred, even when keys are missing; the rest stays ordered and complete |
| `Charging.ChargeIsTake` | source_code/src/priority_executor/include/priority_executor/priority_memory_strategy.hpp:769-967 | charging one callback's settings and moving its ring, its own or the mirrored one, is the chain's take of that callback |
| `Charging.ChargeAges` | source_code/src/priority_executor/include/priority_executor/priority_memory_strategy.hpp:768-967 | every hand-out is counted: always in the sum, in the counter for deadline and chain-aware entries and no others; settings stay, and only a deadline entry's index and a chain's first clock move |
| `Fleets.StaysReady` | source_code/src/priority_executor/include/priority_executor/priority_memory_strategy.hpp:768-967 | after a round every executable can be handed out again: indices in their rings, rings as long as before, the mirrored push inside its ring |
| `Fleets.RoundMoves` | source_code/src/priority_executor/include/priority_executor/priority_memory_strategy.hpp:396-487 | registering entities and then handing out at most one moves only that one and its rings, and the keys to choose by are those from before the registering |
| `Fleets.RoundAges` | source_code/src/priority_executor/include/priority_executor/priority_memory_strategy.hpp:768-967 | over any number of rounds every executable has counted exactly the times it was handed out, with its settings unchanged, and what was added has default settings and counter 0 |
| `Fleets.ChainStands` | source_code/src/priority_executor/include/priority_executor/priority_memory_strategy.hpp:768-967 | handing out anything but a chain's callbacks leaves the chain's indices, clock and ring as they are |
| `Fleets.ChainTaken` | source_code/src/priority_executor/include/priority_executor/priority_memory_strategy.hpp:768-967 | handing out a chain's callback is the chain's take of it, for chains with their own timer and for the one fed through the mirrored push |
| `Fleets.KeyIsChainKey` | source_code/src/priority_executor/include/priority_executor/priority_memory_strategy.hpp:209-218 | the deadline the comparator reads is the head of the callback's slot in its chain's ring |
| `Strategy.PriorityMemoryStrategy.GetAndResetPriority` | source_code/src/priority_executor/include/priority_executor/priority_memory_strategy.hpp:1364-1374 | looks up or creates the settings of a handle and touches nothing else |
| `Strategy.PriorityMemoryStrategy.SetExecutableDeadline` | source_code/src/priority_executor/include/priority_executor/priority_memory_strategy.hpp:1258-1264 | registers a deadline callback under its handle, also while the handle's settings are queued; every other entry stays |
| `Strategy.PriorityMemoryStrategy.CollectHandles` | source_code/src/priority_executor/include/priority_executor/priority_memory_strategy.hpp:414-476 | queues exactly the clients and timers among the handles and the subscriptions and services that were configured before; only these become known |
| `Strategy.PriorityMemoryStrategy.CollectEntities` | source_code/src/priority_executor/include/priority_executor/priority_memory_strategy.hpp:396-487 | collected, in queue and vectors alike, is exactly what the groups free at that moment offer, unconfigured subscriptions and services passed over; each entity goes to the vector of its kind |
| `Strategy.PriorityMemoryStrategy.RemoveNullHandles` | source_code/src/priority_executor/include/priority_executor/priority_memory_strategy.hpp:306-394 | every collected executable carries the wait set's answer, no other changes, and of each vector exactly the ready handles remain |
| `Strategy.PriorityMemoryStrategy.PopServable` | source_code/src/priority_executor/include/priority_executor/priority_memory_strategy.hpp:583-734 | the entry found can be run, its group is free, and no entry servable from the start is preferred to it; none is found only if none is servable |
| `Strategy.PriorityMemoryStrategy.ChargeExecutable` | source_code/src/priority_executor/include/priority_executor/priority_memory_strategy.hpp:768-967 | release clock, rings, index and counters after a hand-out, including the mirrored ring |
| `Strategy.PriorityMemoryStrategy.Hand` | source_code/src/priority_executor/include/priority_executor/priority_memory_strategy.hpp:768-967 | handing out one executable moves its settings, its ring and the mirrored ring, and nothing else of any executable or ring of the map |
| `Strategy.PriorityMemoryStrategy.GetNextExecutable` | source_code/src/priority_executor/include/priority_executor/priority_memory_strategy.hpp:569-980 | the best servable entry is handed out, or nothing if none is servable; no other executable and no other ring moves |
| `Strategy.PriorityMemoryStrategy.WaitForWork` | source_code/src/priority_executor/src/priority_executor.cpp:468-538 | clear, collect and filter in that order: the queue is exactly what this round's free groups offer, with this round's answers, and the vectors keep the ready part of it by kind |
| `Strategy.PriorityMemoryStrategy.Prepare` | source_code/src/priority_executor/src/priority_executor.cpp:472-537 | before selection, settings, rings and queued deadlines of all executables are those the round began with; new entities have default settings and no ring |
| `Strategy.PriorityMemoryStrategy.Round` | source_code/src/priority_executor/src/priority_executor.cpp:664-673 | a round hands out an entity that this round's free groups offer and this round's wait set reported ready, so never an unconfigured subscription or service, best among all such by the keys at the round's start; if there is one, one is handed out; nothing else moves |
| `Spinning.RoundFollows` | source_code/src/priority_executor/include/priority_executor/priority_memory_strategy.hpp:768-967 | a round extends the run of takes of any chain, the fed one included, by exactly the callback of it that was handed out |
| `Spinning.RoundCounts` | source_code/src/priority_executor/include/priority_executor/priority_memory_strategy.hpp:959-966 | every callback of a chain has counted its takes: its counter is what it was at the start plus the takes of it in the chain's run |
| `Spinning.OneRound` | source_code/src/priority_executor/src/priority_executor.cpp:576-592 | a round moves at most one executable, and it is the best choice by the keys at the round's start |
| `Spinning.ChoiceByConfiguration` | source_code/src/priority_executor/include/priority_executor/priority_memory_strategy.hpp:164-234 | what is handed out, in terms of what was configured: a deadline entry if one is offered, else the lowest plain priority, else the highest chain-aware one; a deadline entry without a queued deadline only if no other has one |
| `Spinning.Spin` | source_code/src/priority_executor/src/priority_executor.cpp:576-592 | over any number of rounds with any inputs, every chain's executables, counters and ring are in the state that its takes among what was handed out lead to, and every executable of any kind has counted its hand-outs |
| `Setup.SetUpCallback` | source_code/src/priority_executor/src/arb_test.cpp:134-185 | registers one callback with its chain's period, deadline, ring, first and last flags, next to all others |
| `Setup.LayOut` | source_code/src/priority_executor/src/arb_test.cpp:111-198 | every chain has a ring of its own with ceil(D/T) queues, and its callbacks are registered with it; chain 1 has no timer |
| `Setup.SeedAll` | source_code/src/priority_executor/src/arb_test.cpp:206-229 | each chain's ring holds its own first deadline in slot 0; each timer has its own reading, except that chain 0's has chain 1's |
| `Experiment.SetUp` | source_code/src/priority_executor/src/arb_test.cpp:111-229 | the whole set-up, for any tables and readings, ends in a state of new objects only in which every chain is registered and seeded |
| `Experiment.RegisteredAs` | source_code/src/priority_executor/src/arb_test.cpp:134-185 | setting by setting, what is registered for each callback: kind, chain, period, deadline, ring, first and last flags, counters and index 0, and which reading its clock has |
| `Experiment.RingHolds` | source_code/src/priority_executor/src/arb_test.cpp:115-117 | each ring has ceil(D/T) queues, the first with its own reading's deadline, the others empty |
| `Experiment.ExperimentCanRun` | source_code/src/priority_executor/src/arb_test.cpp:111-229 | in that state every executable can be handed out: no index outside a ring, the mirrored ring found and different from the timer's |
| `Experiment.ChainFollows` | source_code/src/priority_executor/src/arb_test.cpp:111-229 | in that state each chain, with chain 1 fed by chain 0's timer, is a chain in its seeded state that nothing else moves |
| `Experiment.RunExperiment` | source_code/src/priority_executor/src/arb_test.cpp:54-229 | the experiment with its timer shared, run for any number of rounds: every chain is in the state its takes lead to, and each ring in step with its timer is the table of the unfinished instances' entries as long as last takes find released instances |
| `Experiment.OwnEntryExactly` | source_code/src/priority_executor/src/arb_test.cpp:111-229 | in all fed, timely, non-wrapping runs the ready callbacks of a chain read their own instances' entries: always with a timer of its own, whatever the readings; for chain 1 if and only if both rings have equally many slots and these are ceil(D_1/T_0) or more, or chain 1 has one callback of its own |
| `Experiment.SortedExactly` | source_code/src/priority_executor/src/arb_test.cpp:206-229 | the queues of a chain with its own timer are sorted in all such runs if and only if its ring was not seeded N*T or more after its clock |
| `Experiment.OwnDeadlineExactly` | source_code/src/priority_executor/src/arb_test.cpp:209-225 | what a ready callback of chain j competes with is its own instance's release plus D_j if and only if, for instance 0, the clock's reading is the ring's, and for later ones the timer's chain has the same deadline |
| `Experiment.AllOwnEntriesExactly` | source_code/src/priority_executor/src/arb_test.cpp:209-225 | all queued deadlines are the instances' own if and only if the first two readings agree and the first two chains' deadlines agree |
| `Experiment.RunEarliest` | source_code/src/priority_executor/src/arb_test.cpp:54-229 | whenever the fed chain's ring suffices, for any readings, the experiment's rounds are earliest deadline first by queued deadlines across all chains as long as callbacks are reported in turn and in time |
| `EarliestDeadline.KeyIsServed` | source_code/src/priority_executor/include/priority_executor/priority_memory_strategy.hpp:205-234 | a callback that can be taken competes with the deadline queued for the instance it would serve |
| `EarliestDeadline.EarliestDeadlineFirst` | source_code/src/priority_executor/include/priority_executor/priority_memory_strategy.hpp:205-234 | for ready callbacks of any two chains on fed and timely runs, one is preferred if and only if the deadline queued for its instance is earlier, or the same and it was taken fewer times |
| `EarliestDeadline.EarliestDueFirst` | source_code/src/priority_executor/include/priority_executor/priority_memory_strategy.hpp:205-234 | where those are the instances' own, it is the order of the instances' absolute deadlines |
| `EarliestDeadline.PassedOverExactly` | source_code/src/priority_executor/include/priority_executor/priority_memory_strategy.hpp:205-234 | otherwise an instance is passed over for one that is due later if and only if the queued deadlines are off by more than the difference, or by exactly that and the callback was taken more often |
| `EarliestDeadline.FreshIsOnTrack` | source_code/src/priority_executor/src/arb_test.cpp:206-229 | a chain just set up starts such a run, and exactly its timer can be taken, from the first release until the first deadline |
| `EarliestDeadline.RoundStaysInTurn` | source_code/src/priority_executor/include/priority_executor/priority_memory_strategy.hpp:769-967 | if the wait set reports the chain's callbacks only in turn and in time, the run a round leads to is fed and timely again |
| `EarliestDeadline.ChoiceIsEarliest` | source_code/src/priority_executor/src/priority_executor.cpp:664-673 | if a callback of one chain is offered, something is handed out, and if that is a callback of another chain, no later deadline is queued for its instance, and with the same deadline it was taken no more often |
| `EarliestDeadline.EarliestIsByDue` | source_code/src/priority_executor/src/priority_executor.cpp:664-673 | between chains whose entries are made with their own deadlines, the instance served has no later absolute deadline |
| `EarliestDeadline.EarliestSpin` | source_code/src/priority_executor/src/priority_executor.cpp:576-592 | over any number of rounds and any chains, as long as the wait set reports in turn and in time, every chain stays on track and every round is earliest deadline first, by the deadlines queued for the instances and between equal ones by the fewest takes, among all that compete |
| `Protocol.StepKeepsInv` | source_code/src/priority_executor/src/priority_executor.cpp:576-630 | every step of any thread keeps the joint invariant of lock, flags and scheduled timers |
| `Protocol.AssertionNeverFails` | source_code/src/priority_executor/src/priority_executor.cpp:702 | in every interleaving the chosen group's flag is still up when the assertion runs, with or without the late store |
| `Protocol.TimerExclusivity` | source_code/src/priority_executor/src/priority_executor.cpp:593-604 | the scheduled timers are exactly those held between insertion and erasure, each by one thread |
| `Protocol.NoLeakedGroup` | source_code/src/priority_executor/src/priority_executor.cpp:627-629 | a group whose flag is down is mutually exclusive and held by a thread |
| `Protocol.Quiescent` | source_code/src/priority_executor/src/priority_executor.cpp:610-629 | with every thread at its loop head the lock is free, no timer is scheduled and no flag is down |
| `Progress.AllCanGetHome` | source_code/src/priority_executor/src/priority_executor.cpp:576-630 | from every reachable state, with or without the late store, some run leads to one with every thread at its loop head, the lock free, nothing scheduled and no flag down |
| `Progress.GetsHome` | source_code/src/priority_executor/src/priority_executor.cpp:576-630 | a thread that has the lock, finds it free or will not need it gets back to its loop head by moves of its own |
| `Progress.OneMoveHome` | source_code/src/priority_executor/src/priority_executor.cpp:586-587 | a thread that found no work, and one that has executed something without a timer, are back in one move |
| `Protocol.FreeGroupsGrow` | source_code/src/priority_executor/src/priority_executor.cpp:581-586 | while a thread holds the lock, any steps of the others only free groups and leave the scheduled timers alone |
| `LockedRound.SeenFreeGrows` | source_code/src/priority_executor/src/priority_executor.cpp:581-586 | after every one of the other threads' moves, in any interleaving, the flags the lock's holder sees up only become more, starting with those up when it collected |
| `LockedRound.RoundIsPossible` | source_code/src/priority_executor/src/priority_executor.cpp:581-586 | with any number of those moves between two pops, what a round sees is what the strategy's rounds are specified with |
| `LockedRound.ListedIsEnabled` | source_code/src/priority_executor/src/priority_executor.cpp:581-592 | an entity listed by a group that was free at collection can be chosen in every state the other threads' moves lead to |
| `LockedRound.RoundUnderLock` | source_code/src/priority_executor/src/priority_executor.cpp:576-592 | a round run between the other threads' moves hands out a ready entity, best among those ready and offered by the groups free when it collected, and that is a choice the protocol allows in each of the states in between |
| `Exclusion.ExclusionAsIntended` | source_code/src/priority_executor/src/priority_executor.cpp:595-602 | with the reset inside the lock only, at most one thread is between taking and releasing a mutually exclusive group, in every interleaving of any number of threads |
| `Exclusion.BreakingRun` | source_code/src/priority_executor/src/priority_executor.cpp:595-605 | the run in which the store of a discarded executable, after the lock is released, frees a group whose callback is executing |
| `Exclusion.HeldByOneExactly` | source_code/src/priority_executor/src/priority_executor.cpp:576-630 | with that late store, a group is held by at most one thread in all runs if and only if there is one thread or no timer belongs to the group |
| `Exclusion.RunByOneExactly` | source_code/src/priority_executor/src/priority_executor.cpp:576-630 | with that late store, no two callbacks of a group execute at once in any run if and only if there is one thread or the group does not mix a timer with anything else |
| `TaskSystem.SumSlice` | source_code/response_time_model/theorem_2.cpp:22-27 | the inner loop on 64-bit words leaves the sum of the slice modulo 2^64 |
| `TaskSystem.ChainTimes` | source_code/response_time_model/theorem_2.cpp:19-31 | each chain's runtime is the sum of its slice of the flat runtime list, on 64-bit words, and its last callback is the slice's last entry |
| `Schedule.DescribedIsValid` | source_code/response_time_model/theorem_2.cpp:19-37 | with positive periods and deadlines and totals below 2^64 the chains so described form a task system that can be analysed, each with the callbacks of its slice |
| `Crossing.First` | source_code/response_time_model/theorem_2.cpp:39-64 | the first crossing of a bounded demand exists, is least, and lies within bound / m + 1 |
| `ResponseTime2.LoopsMakeDemand` | source_code/response_time_model/theorem_2.cpp:43-53 | the two loops and the final subtraction add up to that demand, and the subtraction does not underflow |
| `ResponseTime2.DemandMono` | source_code/response_time_model/theorem_2.cpp:41-53 | the demand is nondecreasing in the window |
| `ResponseTime2.DemandBounded` | source_code/response_time_model/theorem_2.cpp:41-53 | the demand never exceeds a constant of the task set |
| `ResponseTime2.BoundIsReached` | source_code/response_time_model/theorem_2.cpp:41-53 | that constant is the demand of every window long enough |
| `ResponseTime2.WcrtRange` | source_code/response_time_model/theorem_2.cpp:59 | runtime <= reported value <= bound / m + last callback |
| `ResponseTime2.Sustainable` | source_code/response_time_model/theorem_2.cpp:38-64 | the reported value never decreases when runtimes grow, the analysed chain's last callback and the rest of it included, periods shrink or threads are removed |
| `ResponseTime2.ComputeDemand` | source_code/response_time_model/theorem_2.cpp:41-53 | the accumulation on wrapping 64-bit words equals the demand for every window but 0, where the program's test fails anyway |
| `ResponseTime2.Search` | source_code/response_time_model/theorem_2.cpp:39-64 | the loop on wrapping words ends at the least window whose demand is below m * window |
| `ResponseTime2.WorstCase` | source_code/response_time_model/theorem_2.cpp:39-64 | the search terminates and reports the value of the least window from runtime - last on with demand below m * window |
| `ResponseTime2.ResponseTimes` | source_code/response_time_model/theorem_2.cpp:37-65 | one such value per chain |
| `ResponseTime1.DemandBounded` | source_code/response_time_model/theorem_1.cpp:51-65 | although not monotone, the demand never exceeds a constant of the task set |
| `ResponseTime1.BoundIsReached` | source_code/response_time_model/theorem_1.cpp:51-65 | that constant is the demand of a window long enough, as long as no product wraps |
| `ResponseTime1.WcrtRange` | source_code/response_time_model/theorem_1.cpp:70 | runtime <= reported value <= bound / m + last callback, before narrowing |
| `ResponseTime1.Search` | source_code/response_time_model/theorem_1.cpp:48-77 | the loop on wrapping words ends at the least such window although the demand is not monotone |
| `ResponseTime1.WorstCase` | source_code/response_time_model/theorem_1.cpp:48-77 | the search terminates and reports the least window with demand below m * window, narrowed to 32 bits |
| `ResponseTime1.TermCoversExactly` | source_code/response_time_model/theorem_1.cpp:55 | the term of a shorter-deadline chain is at least the other analysis's if and only if the window is a whole number of periods, or the subtraction wraps, or its true value is at least the runtime |
| `ResponseTime1.CoversExactly` | source_code/response_time_model/theorem_1.cpp:55 | at any window t that is so if and only if the runtime is 0, the deadline gap is a whole number of periods, or t is outside [gap * T, gap * T + C) |
| `ResponseTime1.CoversThroughoutExactly` | source_code/response_time_model/theorem_1.cpp:51-71 | a condition on the task system alone holds if and only if the term is at least the other's at every window the search can stop at |
| `ResponseTime1.OtherAnalysisNoLarger` | source_code/response_time_model/theorem_1.cpp:51-71 | with constrained deadlines and that condition for every shorter-deadline chain, the arbitrary-deadline analysis reports no more |
| `ResponseTime1.TermDrops` | source_code/response_time_model/theorem_1.cpp:55 | with a period of two ticks or more, the term loses a whole runtime from window gap * T - 1 to gap * T |
| `ResponseTime1.TermMonotoneExactly` | source_code/response_time_model/theorem_1.cpp:55 | a term is monotone in the window if and only if the chain's period is one tick or its runtime is 0 |
| `ResponseTime1.TermExactly` | source_code/response_time_model/theorem_1.cpp:53-57 | against the other analysis, a shorter-deadline chain's term lacks a runtime unless the window is a whole number of periods and exceeds it by the wrapped remainder, capped at a runtime |
| `ResponseTime1.OneInstanceCarried` | source_code/response_time_model/theorem_1.cpp:60-65 | whatever a chain's period and deadline, the second loop charges what the other analysis carries in for it with a constrained deadline |
| `ResponseTime1.DemandExactly` | source_code/response_time_model/theorem_1.cpp:51-65 | with constrained deadlines the two demands differ by exactly these amounts, of shorter-deadline chains only |
| `ResponseTime1.SameWithoutShorter` | source_code/response_time_model/theorem_1.cpp:51-71 | with constrained deadlines and none shorter than the analysed chain's, the two analyses report the same |
| `ResponseTime1.OnlyShorterMatter` | source_code/response_time_model/theorem_1.cpp:53 | the reported value does not depend on the period of a chain whose deadline is not shorter, nor on that deadline |
| `ResponseTime1.AnalysesDisagree` | source_code/response_time_model/theorem_1.cpp:51-71 | a two-chain system on which this demand drops as the window grows and this analysis reports less than the other |
| `Schedule.TicksAccounted` | source_code/response_time_model/theorem_2.cpp:41-56 | before the last callback starts, m * t is covered by earlier callbacks' progress and interfering work |
| `Schedule.LastCallbackStarts` | source_code/response_time_model/theorem_2.cpp:56 | where the demand is below m * t, the last callback starts before tick t in every legal m-thread schedule whose interfering work in the first t ticks is in total within the analysis's |
| `Schedule.ReportedBoundHolds` | source_code/response_time_model/theorem_2.cpp:56-60 | in every such schedule all callbacks of the instance are finished after the reported number of ticks |
| `Schedule.EachTermIsWithin` | source_code/response_time_model/theorem_2.cpp:43-53 | work within each chain's own term is within the total |
| `Tightness.InterferenceFills` | source_code/response_time_model/theorem_2.cpp:56-60 | one tick before the search stops, the interference fills all threads for every tick beyond the earlier callbacks' runtime |
| `Tightness.BoundIsAttained` | source_code/response_time_model/theorem_2.cpp:56-60 | the reported value cannot be improved: for every task system, chain and split of its runtime there is a legal schedule, within the analysis chain by chain, in which the instance is unfinished one tick before it |
| `ExecutorAnalysis.ChainArrivalBound` | source_code/response_time_model/theorem_2.cpp:46 | the releases recorded in any run of takes of a chain obey the arrival bound in every window |
| `ExecutorAnalysis.PendingBound` | source_code/response_time_model/theorem_2.cpp:49-51 | in any run of the executor's clock, at most ceil(D/T) releases are within a relative deadline before any time |
| `ExecutorAnalysis.MostArrive` | source_code/response_time_model/theorem_2.cpp:46 | for every window some run of the executor's clock releases ceil(w/T) instances in it |
| `ExecutorAnalysis.BacklogAttained` | source_code/response_time_model/theorem_2.cpp:50 | for every chain and time some run has exactly ceil(D/T) instances with their deadlines ahead: the count charged is the least bound |
| `ExecutorAnalysis.QueuedArePending` | source_code/src/priority_executor/include/priority_executor/priority_memory_strategy.hpp:807-831 | when the timer can be taken in time, the deadlines in a chain's ring are no more than those releases |
| `ExecutorAnalysis.AccountWithinAnalysis` | source_code/response_time_model/theorem_2.cpp:43-53 | work of instances pending at the window's start and of releases in the window, both by any run of the executor's clock, stays within the chain's demand term |
| `ExecutorAnalysis.CarriedAttained` | source_code/response_time_model/theorem_2.cpp:49-53 | the term for what is carried in, with the analysed instance taken off, is attained by such work |
| `ExecutorAnalysis.ReleasedAttained` | source_code/response_time_model/theorem_2.cpp:43-48 | so is the term for what is released in the window, which is nothing for a chain whose deadline is not shorter |
| `ExecutorAnalysis.ExecutorMeetsReport` | source_code/response_time_model/theorem_2.cpp:37-65 | schedules whose interference is accounted for by the executor's rings and clocks finish within the reported value |

## Left out

- rclcpp, rcl and DDS internals, guard conditions and `rcl_wait`: the wait set is an arbitrary set of ready handles; `wait_mutex_` is one plain lock without its two priorities.
- WAITABLE entries, expired nodes, and entity lookups that return null: the model's groups list subscriptions, services, clients and timers that exist.
- The clock, CPU affinity, scheduling class, logging, shutdown and exception paths; the current time is a parameter.
- Double-precision `ceil`: integer ceilings are used, which agree for operands below 2^53. Null `release_time` and `timer_handle` pointers are not modelled.
- `int` narrowing of the first release and of the count of late periods; deadlines are narrowed to the 32-bit queues.
- The stock and single-threaded executors and the plain FIFO `get_next_*` loops: they do not use the priority queue, the rings or the lock protocol that the properties are about.
- The setters of plain priorities and guard-condition bookkeeping: no deadline chain is set up through them, and the comparator is treated for every schedule class and priority value.
- That every schedule the executor can produce satisfies the interference account: it is a hypothesis of the schedule theorems, stated per chain and instance.
- Strategy.PriorityMemoryStrategy.Round: runs sequentially under the lock; the other threads' stores appear as the growing sets `observed`, which LockedRound.SeenFreeGrows derives from the protocol, and the group flags are not objects of the heap model.
- Strategy.PriorityMemoryStrategy.SetExecutableDeadline: the program overwrites the settings object in place; the model replaces it by a new one in the map and in the queue, and queue order after a registration in the middle of a round is not promised.
- Strategy.PriorityMemoryStrategy.ChargeExecutable: the second chain's ring must be a different ring, at least as long as the timer's turn; with a shorter one the program indexes outside it.
- ExecutableHeap.Pop: a textbook binary heap stands for `std::priority_queue`; which of several equally good entries comes first may differ.
- Chain.ReadyReadsOwnDeadline: of a fed chain the timer is left to the ring of its own chain; takes are counted, not executions, so a lost message or a discarded duplicate timer take shows up as a larger backlog; feeding in chain order, timely timer takes and deadlines below 2^32 are hypotheses.
- ResponseTime2.WorstCase: the values of the search must fit 64 bits; the model says what bound suffices.
- ResponseTime1.WorstCase: as above, except that the product of window and period may wrap.
- EarliestDeadline.EarliestSpin: that the wait set reports the chains' callbacks in turn and their timers in time is a hypothesis of each round, as is that no deadline has wrapped; deadlines are those queued, which EarliestDeadline.EarliestIsByDue turns into the instances' own where they are.
- Experiment.RunExperiment: every chain has two or more callbacks and chain 1's ring is no shorter than chain 0's, as in the experiment's tables; a chain of one callback would never pop its ring.
- ExecutorAnalysis.ExecutorMeetsReport: the releases are those of chains with their own timer.
