# ACE and Kokyu, modelled and proved

Models of the most intricate algorithms of the ACE library (`ACE/ace`) and of its Kokyu scheduler
(`ACE/Kokyu`), with proofs of what they promise. `dafny verify dfyconfig.toml` checks all of it.

| file | what it models |
|---|---|
| `Barrier.dfy` | the reusable barrier of two sub-barriers, as a step system and as a class |
| `Eligibility.dfy`, `ReadyQueue.dfy` | the three QoS comparators, the order on items, and the queue with two indexes |
| `CvDispatcher.dfy` | the dispatcher that schedules threads with a condition variable |
| `DirectDispatcher.dfy` | the dispatcher whose executive thread changes priorities |
| `Gf2.dfy`, `Octets.dfy`, `Crc32.dfy`, `CrcCcitt.dfy` | polynomials over GF(2), bytes as bits, and the two table-driven checksums |
| `Transfer.dfy`, `MessageChain.dfy` | the loops that finish partial gather and scatter transfers, and the walk over message blocks |
| `Characters.dfy`, `Glob.dfy`, `WildMatch.dfy` | what a pattern means, what the matcher computes, and the matcher |
| `FrameSize.dfy`, `ArgShifter.dfy`, `ArgvBuffer.dfy`, `ArrayMap.dfy` | greatest common divisor and frame size, argument shifter, argument buffer, array map |

**Concurrency.** A lock-protected section is one atomic step; a condition wait ends one step and a
wake-up, caused by a broadcast or by nothing, begins another. Each system has a value `State`, one
function a step, and theorems over every run, that is over every sequence of states that starts in an
initial state and in which each follows from the one before by an enabled step. Beside it stands a class
whose methods are the steps in the source's own form; each method's contract says that it takes the
object's `Model()` where the step function takes the state, with the same outcome, and `Drive` takes an
object through any run. What no code reads (where the threads are, how often they called) is ghost. What
each call does to the queue, the current thread, the priorities and its caller is stated over every run
without the step functions (`ShutdownReleases`, and the lemmas named `...Effect`).

Some sections of the CV dispatcher hold only one of its two locks, so that a step under the other lock can
fall inside them. That they are one step nevertheless is proved for every such case: any sequence of
insertions, cancellations and updates by other threads between the reading of the queue and the test of
a wake-up (`WakeUpIsAtomic`) or of an arbitration (`ArbitrationIsAtomic`), and a wake-up, or the test of
an item read before, between the removal and the reset of a cancellation (`WakeUpInsideCancel`,
`TestInsideCancel`). What is inside the queue's own `insert`, `remove` and `most_eligible` is atomic in
the model.

**System calls.** The transfer loops run against a script that holds one answer for each call; the
theorems hold for every script. Memory is a sequence of bytes, and a buffer is a range of addresses.

**Results where a promise fails.** The code is modelled as it is. Where something one would expect is
not so, there is a run or an input that shows it, and the exact condition is proved:

- *CV dispatcher.* After a hand-off, the arrival of a still more eligible thread before the target wakes
  up leaves the dispatcher stuck for good; the timeout of the wait, called an escape latch in the source,
  does not help. `StuckIffOvertaken`, `ProgressUnlessStuck`, `StuckForever`, `OvertakingHappens`.
- *Direct dispatcher.* A head that schedules itself again and ties with another key loses its item
  without the executive being told (`SettledStep`, `LostRescheduleHappens`); a current thread that
  schedules itself again ends up inactive (`PassSettles`, `DemotionHappens`); a blocking update keeps a
  lock that the executive wants while it wants the executive's (`DeadlockedIffNoStep`,
  `DeadlockedByStep`, `DeadlockHappens`).
- *Pattern matching.* The matcher agrees with the meaning of a pattern on all texts exactly for the
  patterns that `Safe` describes (`ExactIffSafe`); a pattern such as `*a` is not one of them
  (`InteriorStarMissed`). What the range of a class takes in can depend on whether plain `char` is signed:
  it does if and only if its ends are on different sides of 128 and a character lies between them
  (`RangeSignedness`). Where all ranges have their ends on the same side, as those that POSIX allows do,
  the answer is one and the same (`SignednessIrrelevant`).
- *Frame size.* The result is the least common multiple if and only if the product of the periods fits
  the type or one period divides the other (`FrameSizeIsLcm`), although the source takes care to avoid
  overflow; `OverflowHappens` has two periods whose least common multiple fits and is not returned.
- *Argument buffer.* A quoted argument is read back unchanged if and only if it neither ends with a
  backslash nor has one in front of a quote (`QuotedRoundTrip`, `NotReadBack`). The whole buffer is read
  back as the arguments that were added if and only if that is so of each quoted one, each unquoted one is
  not empty and holds no white space or quotes, and the first one starts no comment (`BufferRoundTrip`,
  `EmptyVanishes`, `UnquotedBlankSplits`).
- *Argument shifter.* The documentation in Arg_Shifter.h, lines 141-157, promises a number above 0 for an
  argument that is longer than the flag. With an empty flag it is 0, unless the argument starts with a
  blank (`ZeroOffset`, `EmptyFlagMatches`), and the argument is taken for the flag itself. A negative
  count is accepted and leaves the shifter with indexes that no longer fit its vector (`ConsumeArg`,
  `IgnoreArg`).
- *Barrier.* A waiter of a round that was completed before a shutdown, but that wakes up after it,
  reports the shutdown (`Drains`, `OnlyShutdownFails`, `CompletedWaiterFails`); a waiter of a completed
  round can stay blocked if and only if the barrier is for two threads or more and more threads than that
  use it (`TooManyThreads`).

## Model

| member | source | states |
|---|---|---|
| Barrier.NoEarlyRelease | ACE/ace/Barrier.cpp:75-121 | in every run with exactly `count` threads, a thread's k-th `wait` returns 0 only after every thread has made its k-th call |
| Barrier.LastArrivalReleases | ACE/ace/Barrier.cpp:92-101 | with all others blocked in the current generation the last arrival returns 0 at once and every other thread is then signalled and leaves when it wakes up |
| Barrier.RoundsAgree | ACE/ace/Barrier.cpp:88-107 | until a shutdown no thread is more than one call ahead of another |
| Barrier.NoWaiterStranded | ACE/ace/Barrier.cpp:92-118 | a waiter of the previous generation, or of any after a shutdown, has been signalled since it blocked and its wake-up leaves the barrier |
| Barrier.ShutdownReleases | ACE/ace/Barrier.cpp:123-146 | in every run, with any number of threads, a shutdown takes the barrier down and every waiter of the current generation can then leave with -1; with exactly `count` threads every waiter can; the call returns 0 the first time and -1 after that |
| Barrier.DownForGood | ACE/ace/Barrier.cpp:81-88 | from then on the barrier stays down, and no call of `wait` blocks or succeeds |
| Barrier.SomeThreadCanStep | ACE/ace/Barrier.cpp:75-121 | in every reachable state some thread is outside, free to call, or has been told to leave |
| Barrier.Drains | ACE/ace/Barrier.cpp:123-146 | after a shutdown every call, wake-up and further shutdown returns -1, and the waiters are gone after exactly as many wake-ups as there were waiters |
| Barrier.InvRun | ACE/ace/Barrier.cpp:61-146 | every reachable state keeps the invariant: the current sub-barrier counts down the threads in it, the other one is full and its waiters are free |
| Barrier.CompletedWaiterFails | ACE/ace/Barrier.cpp:109-117 | a run in which a waiter of a completed round returns -1, because the barrier was shut down before it woke up |
| Barrier.TooManyThreads | ACE/ace/Barrier.h:138-148 | for any `count` and number of threads: there is a run in which a call waits from its arrival past the end of its round and blocks again when it wakes up, if and only if 2 <= `count` < threads |
| Barrier.Barrier.WaitArrival | ACE/ace/Barrier.cpp:79-107 | the object's arrival changes its state, and returns or blocks, as the arrival step does |
| Barrier.Barrier.WaitWakeUp | ACE/ace/Barrier.cpp:105-120 | the same for a wake-up: the loop test again, then 0 or -1 |
| Barrier.Barrier.ShutdownBarrier | ACE/ace/Barrier.cpp:123-146 | the same for a shutdown, whose null pointers mark the barrier as down |
| Barrier.Drive | ACE/ace/Barrier.cpp:75-146 | the object goes through any run of the model with the run's outcomes, its threads holding on to the sub-barriers they blocked in |
| Eligibility.MoreEligibleIsBefore | ACE/Kokyu/DSRT_Dispatcher_Impl_T.h:65-87 | for every comparator and every clock reading the adapter computes one lexicographic order of merit and insertion time that does not mention the clock |
| Eligibility.MoreEligibleMeans | ACE/Kokyu/Kokyu_dsrt.cpp:92-172 | greater importance, a higher priority, or greater criticality and then less laxity comes first, and the earlier insertion among equals |
| Eligibility.StrictWeakOrder | ACE/Kokyu/Kokyu_dsrt.cpp:92-172 | that order is irreflexive, asymmetric and transitive, ties are transitive, and items tie exactly when merit and insertion time are equal |
| ReadyQueue.HeadExists | ACE/Kokyu/DSRT_Sched_Queue_T.cpp:58-69 | a non-empty queue without ties has an item that comes before all others |
| ReadyQueue.HeadAfterInsert | ACE/Kokyu/DSRT_Sched_Queue_T.cpp:98-181 | an insertion, successful or refused, moves the head only to the new item, and exactly if that comes before the old head, unless it replaces the head's own item |
| ReadyQueue.InsertedMeans | ACE/Kokyu/DSRT_Sched_Queue_T.cpp:98-181 | an insertion touches its own guid only; the new item is in the queue if and only if no other guid's key ties with its own, and otherwise the guid is gone |
| ReadyQueue.SameSize | ACE/Kokyu/DSRT_Sched_Queue_T.cpp:45-50 | two indexes with the same items, one a guid, have the same size |
| ReadyQueue.SchedReadyQueue.ValidIsKeyed | ACE/Kokyu/DSRT_Sched_Queue_T.cpp:58-69 | the two indexes together are one map without ties whose head is the tree's first item |
| ReadyQueue.SchedReadyQueue.Bind | ACE/Kokyu/DSRT_Sched_Queue_T.cpp:122-124 | the tree takes an item exactly if no key ties with it, and stays in order |
| ReadyQueue.SchedReadyQueue.Insert | ACE/Kokyu/DSRT_Sched_Queue_T.cpp:92-181 | both indexes change alike: the old item under the guid goes, the new one comes unless its key ties with another, in which case the result is -1 and the old one stays gone |
| ReadyQueue.SchedReadyQueue.Remove | ACE/Kokyu/DSRT_Sched_Queue_T.cpp:183-208 | the guid's item leaves both indexes and nothing else does |
| ReadyQueue.SchedReadyQueue.Find | ACE/Kokyu/DSRT_Sched_Queue_T.cpp:71-90 | finds by guid exactly the items that are in the tree |
| ReadyQueue.SchedReadyQueue.MostEligible | ACE/Kokyu/DSRT_Sched_Queue_T.cpp:52-69 | -1 exactly for an empty queue, else the item that comes before every other |
| ReadyQueue.SchedReadyQueue.CurrentSize | ACE/Kokyu/DSRT_Sched_Queue_T.cpp:39-50 | the number of guids, cut off at the largest int; 0 or less only for an empty queue |
| ReadyQueue.SchedReadyQueue.ChangePrio | ACE/Kokyu/DSRT_Sched_Queue_T.cpp:246-274 | exactly the queued threads at the old priority move to the new one |
| CvDispatcher.OneRuns | ACE/Kokyu/DSRT_CV_Dispatcher_Impl_T.cpp:53-173 | in every run at most one thread is past `schedule_i` without having re-entered or cancelled, and it is the current handle and guid |
| CvDispatcher.GrantsTheMostEligible | ACE/Kokyu/DSRT_CV_Dispatcher_Impl_T.cpp:93-150 | whenever a thread is let go, its item comes before all others in the queue and no thread is running |
| CvDispatcher.InsertEffect | ACE/Kokyu/DSRT_CV_Dispatcher_Impl_T.cpp:60-82 | in every run, what an insertion does to the queue, the current thread, the lock and the outcome, refused or not |
| CvDispatcher.ArbitrateEffect | ACE/Kokyu/DSRT_CV_Dispatcher_Impl_T.cpp:93-172 | an arbitration lets its thread go exactly if that heads the queue and is current or nobody is; a current thread that does not head it hands over to the head and tells every waiter |
| CvDispatcher.WakeUpEffect | ACE/Kokyu/DSRT_CV_Dispatcher_Impl_T.cpp:141-172 | a wake-up lets its thread go under the same condition and changes nothing else otherwise |
| CvDispatcher.CancelEffect | ACE/Kokyu/DSRT_CV_Dispatcher_Impl_T.cpp:239-262 | a cancellation takes its guid out of the queue and nothing else, its thread is not current any more, whoever else was still is, and a broadcast is due |
| CvDispatcher.ReleaseEffect | ACE/Kokyu/DSRT_CV_Dispatcher_Impl_T.cpp:264-267 | that broadcast reaches every waiter, and the call returns 0 |
| CvDispatcher.UpdateEffect | ACE/Kokyu/DSRT_CV_Dispatcher_Impl_T.cpp:182-236 | an update with the block flag does to a queued guid what a cancellation does; with the other flag, or for a guid that is not queued, it changes nothing and returns -1 |
| CvDispatcher.InvRun | ACE/Kokyu/DSRT_CV_Dispatcher_Impl_T.cpp:53-268 | every reachable state keeps the invariant, which includes that no wake-up is lost and that no step reads an empty queue |
| CvDispatcher.ProgressUnlessStuck | ACE/Kokyu/DSRT_CV_Dispatcher_Impl_T.cpp:129-150 | with queued threads, none running and none inside a lock, the head has been signalled and its wake-up lets it go, if and only if the dispatcher is not stuck |
| CvDispatcher.StuckForever | ACE/Kokyu/DSRT_CV_Dispatcher_Impl_T.cpp:129-150 | from a stuck state no continuation ever lets a thread go, timeouts included |
| CvDispatcher.StuckIffOvertaken | ACE/Kokyu/DSRT_CV_Dispatcher_Impl_T.cpp:112-132 | a state is stuck exactly if at some step before it an item was inserted that comes before that of a thread waiting for its hand-off |
| CvDispatcher.OvertakingHappens | ACE/Kokyu/DSRT_CV_Dispatcher_Impl_T.cpp:112-132 | a run of three threads that ends stuck |
| CvDispatcher.WakeUpIsAtomic | ACE/Kokyu/DSRT_CV_Dispatcher_Impl_T.cpp:141-150 | whatever insertions, cancellations and updates other threads make between a wake-up's reading of the queue and its test, the outcome is that of the whole wake-up before all of them or after all of them |
| CvDispatcher.ArbitrationIsAtomic | ACE/Kokyu/DSRT_CV_Dispatcher_Impl_T.cpp:93-132 | whatever they make between an arbitration's reading and its hand-off and test, the outcome is that of the whole arbitration before all of them, or of a wake-up after both |
| CvDispatcher.WakeUpInsideCancel | ACE/Kokyu/DSRT_CV_Dispatcher_Impl_T.cpp:248-261 | a wake-up between the removal and the reset of a cancellation might as well have come before the removal |
| CvDispatcher.TestInsideCancel | ACE/Kokyu/DSRT_CV_Dispatcher_Impl_T.cpp:112-132 | so might the test of a wake-up or arbitration that has read the queue before |
| CvDispatcher.Drive | ACE/Kokyu/DSRT_CV_Dispatcher_Impl_T.cpp:53-268 | the object goes through any run of the model with the run's outcomes, and so has at most one running thread |
| CvDispatcher.Dispatcher.ScheduleInsert | ACE/Kokyu/DSRT_CV_Dispatcher_Impl_T.cpp:60-82 | the object's insertion changes its state as the step does, a refused one included |
| CvDispatcher.Dispatcher.ScheduleArbitrate | ACE/Kokyu/DSRT_CV_Dispatcher_Impl_T.cpp:93-172 | the same for the hand-off and the first test of the wait loop |
| CvDispatcher.Dispatcher.ScheduleWakeUp | ACE/Kokyu/DSRT_CV_Dispatcher_Impl_T.cpp:141-172 | the same for a wake-up |
| CvDispatcher.Dispatcher.CancelRemove | ACE/Kokyu/DSRT_CV_Dispatcher_Impl_T.cpp:239-262 | the same for the removal and the reset of the current handle |
| CvDispatcher.Dispatcher.UpdateSchedule | ACE/Kokyu/DSRT_CV_Dispatcher_Impl_T.cpp:182-236 | the same for an update with a block flag, which cancels what it finds and returns -1 otherwise |
| DirectDispatcher.NoRescheduleLost | ACE/Kokyu/DSRT_Direct_Dispatcher_Impl_T.cpp:100-181 | in every run without a refused re-insertion of the head, whenever nothing is pending and the queue is not empty the current thread is that of the most eligible item |
| DirectDispatcher.PassCatchesUp | ACE/Kokyu/DSRT_Direct_Dispatcher_Impl_T.cpp:124-180 | after every pass the agreement holds, and something is pending only if a client is between its change of the queue and the flag |
| DirectDispatcher.SettledStep | ACE/Kokyu/DSRT_Direct_Dispatcher_Impl_T.cpp:190-260 | a step breaks that agreement if and only if it is a refused re-insertion by the head while nothing is pending |
| DirectDispatcher.LostRescheduleHappens | ACE/Kokyu/DSRT_Direct_Dispatcher_Impl_T.cpp:210-211 | a run in which it is broken |
| DirectDispatcher.FlagIsSeen | ACE/Kokyu/DSRT_Direct_Dispatcher_Impl_T.cpp:110-124 | a set flag never waits for an executive that sleeps unsignalled |
| DirectDispatcher.CurrentStaysQueued | ACE/Kokyu/DSRT_Direct_Dispatcher_Impl_T.cpp:317-337 | in every run in which the current thread's insertions are not refused, the current handle is 0 or that of a queued thread |
| DirectDispatcher.CurrentQueuedStep | ACE/Kokyu/DSRT_Direct_Dispatcher_Impl_T.cpp:190-211 | a step breaks that if and only if it is such a refusal |
| DirectDispatcher.ActiveIsCurrent | ACE/Kokyu/DSRT_Direct_Dispatcher_Impl_T.cpp:151-180 | in every reachable state a queued thread at the active priority is the current handle and guid |
| DirectDispatcher.PassSettles | ACE/Kokyu/DSRT_Direct_Dispatcher_Impl_T.cpp:132-180 | after a pass over a non-empty queue the head is current, every other queued thread is inactive, and the head is active exactly if it was not current before or was active already |
| DirectDispatcher.OnlyAChangeActivates | ACE/Kokyu/DSRT_Direct_Dispatcher_Impl_T.cpp:151-180 | a current thread that is not active stays so for as long as it is current |
| DirectDispatcher.ScheduleEffect | ACE/Kokyu/DSRT_Direct_Dispatcher_Impl_T.cpp:190-260 | in every run, what a call of `schedule` does to the queue, the priorities and the outcome, refused or not |
| DirectDispatcher.CancelEffect | ACE/Kokyu/DSRT_Direct_Dispatcher_Impl_T.cpp:317-347 | a cancellation takes its guid out of the queue and nothing else, and nobody is current any more if the guid was |
| DirectDispatcher.UpdateEffect | ACE/Kokyu/DSRT_Direct_Dispatcher_Impl_T.cpp:269-315 | an update with the block flag does the same to a queued guid and blocks its thread; anything else changes nothing and returns -1 |
| DirectDispatcher.CancelledStaysAway | ACE/Kokyu/DSRT_Direct_Dispatcher_Impl_T.cpp:327-337 | after either, the guid is neither queued nor current, whatever passes there are, until it is scheduled again |
| DirectDispatcher.FlagEffect | ACE/Kokyu/DSRT_Direct_Dispatcher_Impl_T.cpp:251-259 | every such call then sets the flag, wakes the executive if it sleeps, and returns 0 |
| DirectDispatcher.AwaitEffect | ACE/Kokyu/DSRT_Direct_Dispatcher_Impl_T.cpp:107-123 | the executive begins a pass exactly if the flag is set, which it clears, and exits at the start of an iteration exactly if a shutdown was requested |
| DirectDispatcher.PassLeaves | ACE/Kokyu/DSRT_Direct_Dispatcher_Impl_T.cpp:130-180 | a pass leaves the queue and the priorities of threads that are not queued alone, except for a current one that the head replaces, and over an empty queue does nothing |
| DirectDispatcher.ShutdownStays | ACE/Kokyu/DSRT_Direct_Dispatcher_Impl_T.cpp:349-357 | a shutdown request is seen by every later test |
| DirectDispatcher.DemotionHappens | ACE/Kokyu/DSRT_Direct_Dispatcher_Impl_T.cpp:151-180 | a run that leaves the only queued thread current and inactive |
| DirectDispatcher.DeadlockedIffNoStep | ACE/Kokyu/DSRT_Direct_Dispatcher_Impl_T.cpp:273-301 | no step but a shutdown request is possible if and only if a blocking update holds the queue's lock while the executive holds the flag's |
| DirectDispatcher.DeadlockedByStep | ACE/Kokyu/DSRT_Direct_Dispatcher_Impl_T.cpp:102-128 | the two kinds of step, and no others, that lead there |
| DirectDispatcher.DeadlockedForever | ACE/Kokyu/DSRT_Direct_Dispatcher_Impl_T.cpp:273-301 | it is never left, and the queue never changes again |
| DirectDispatcher.DeadlockHappens | ACE/Kokyu/DSRT_Direct_Dispatcher_Impl_T.cpp:273-301 | a run of one thread that ends there |
| DirectDispatcher.AtMostOnePassAfterShutdown | ACE/Kokyu/DSRT_Direct_Dispatcher_Impl_T.cpp:100-118 | after a shutdown request the executive makes at most one more pass, and none unless it was already waiting for the flag or passing |
| DirectDispatcher.Dispatcher.ScheduleInsert | ACE/Kokyu/DSRT_Direct_Dispatcher_Impl_T.cpp:190-226 | the object's insertion changes its state as the step does; a refused one leaves the priority alone |
| DirectDispatcher.Dispatcher.CancelRemove | ACE/Kokyu/DSRT_Direct_Dispatcher_Impl_T.cpp:317-337 | the same for a cancellation |
| DirectDispatcher.Dispatcher.UpdateSchedule | ACE/Kokyu/DSRT_Direct_Dispatcher_Impl_T.cpp:269-314 | the same for an update with a block flag, which keeps its lock |
| DirectDispatcher.Dispatcher.SvcPass | ACE/Kokyu/DSRT_Direct_Dispatcher_Impl_T.cpp:126-180 | the same for its pass over the queue |
| DirectDispatcher.Drive | ACE/Kokyu/DSRT_Direct_Dispatcher_Impl_T.cpp:63-366 | the object goes through any run of the model with the run's outcomes, and so has at most one queued thread at the active priority, the current one |
| Gf2.DivideIsRemainder | ACE/ace/ACE_crc32.cpp:11-15 | bit-serial division is division: the message is a multiple of the generator plus the register, whose degree is below the generator's |
| Gf2.RemainderUnique | ACE/ace/ACE_crc32.cpp:11-15 | quotient and remainder are the only ones |
| Gf2.BurstDetected | ACE/ace/ACE_crc32.cpp:11-15 | for any generator with a constant term, messages of one length that differ only within as many consecutive bits as its degree leave different remainders |
| Gf2.OddErrorsDetected | ACE/ace/ACE_crc_ccitt.cpp:11-15 | for a generator with an even number of terms, messages of one length that differ in an odd number of bits leave different remainders |
| Crc32.TableEntry | ACE/ace/ACE_crc32.cpp:25-96 | each of the 256 entries is its index after eight division steps |
| Crc32.ComputeDivides | ACE/ace/ACE_crc32.cpp:98 | one table step is eight division steps by the byte's bits, whether `char` is signed or not |
| Crc32.CrcIsRemainder | ACE/ace/ACE_crc32.cpp:118-132 | the checksum, uninverted, is the remainder of the whole message divided by the generator |
| Crc32.SignIrrelevant | ACE/ace/ACE_crc32.cpp:98-132 | the checksum does not depend on the signedness of `char` |
| Crc32.CrcChained | ACE/ace/ACE_crc32.cpp:118-132 | the checksum of a concatenation is the chained checksum |
| Crc32.BurstChangesCrc | ACE/ace/ACE_crc32.cpp:98-132 | buffers of one length that differ only within 32 consecutive bits, at any bit position, have different checksums from the same start value |
| Crc32.WindowChangesCrc | ACE/ace/ACE_crc32.cpp:98-132 | in particular buffers that differ only within 4 consecutive bytes |
| Crc32.GoodFrame | ACE/ace/ACE_crc32.cpp:118-132 | data followed by 4 bytes checks to the constant of RFC 1662 if and only if the bytes are the data's checksum |
| Crc32.Buffer | ACE/ace/ACE_crc32.cpp:118-132 | the buffer overload returns the checksum function's value |
| Crc32.String | ACE/ace/ACE_crc32.cpp:103-116 | the string overload, that of everything before the first null character |
| Crc32.Iovec | ACE/ace/ACE_crc32.cpp:134-149 | the gather overload, that of the concatenated buffers |
| CrcCcitt.TableEntry | ACE/ace/ACE_crc_ccitt.cpp:25-64 | the same for the 16-bit table |
| CrcCcitt.ComputeDivides | ACE/ace/ACE_crc_ccitt.cpp:66 | the same for the 16-bit step |
| CrcCcitt.CrcIsRemainder | ACE/ace/ACE_crc_ccitt.cpp:86-100 | the same for the 16-bit checksum |
| CrcCcitt.SignIrrelevant | ACE/ace/ACE_crc_ccitt.cpp:66-100 | the same for signedness |
| CrcCcitt.CrcChained | ACE/ace/ACE_crc_ccitt.cpp:86-100 | the same for chaining |
| CrcCcitt.BurstChangesCrc | ACE/ace/ACE_crc_ccitt.cpp:66-100 | buffers that differ only within 16 consecutive bits have different checksums |
| CrcCcitt.WindowChangesCrc | ACE/ace/ACE_crc_ccitt.cpp:66-100 | in particular within 2 consecutive bytes |
| CrcCcitt.OddErrorsChangeCrc | ACE/ace/ACE_crc_ccitt.cpp:66-100 | buffers of one length that differ in an odd number of bits, wherever they are, have different checksums |
| CrcCcitt.GoodFrame | ACE/ace/ACE_crc_ccitt.cpp:86-100 | data followed by 2 bytes checks to the constant of RFC 1662 if and only if the bytes are the data's checksum |
| CrcCcitt.Buffer | ACE/ace/ACE_crc_ccitt.cpp:86-100 | the buffer overload returns the checksum function's value |
| CrcCcitt.String | ACE/ace/ACE_crc_ccitt.cpp:71-84 | the string overload, that of everything before the first null character |
| CrcCcitt.Iovec | ACE/ace/ACE_crc_ccitt.cpp:102-117 | the gather overload, that of the concatenated buffers |
| Octets.FlattenBoth | ACE/ace/ACE_crc32.cpp:134-149 | the gathered message is the buffers' bytes, one buffer behind the other |
| Transfer.Advance | ACE/ace/ACE.cpp:2160-2173 | after a partial transfer the array from the new index on, adjusted in place, covers exactly the addresses not transferred, and the index is at the end exactly if there are none |
| Transfer.WritevN | ACE/ace/ACE.cpp:2134-2176 | on every return exactly the first `bt` bytes of the buffers have been written; the result is positive exactly if that is all of them, else what the system returned last; enough successful answers mean success |
| Transfer.SendvN | ACE/ace/ACE.cpp:1758-1818 | the same, with an operation that would block tried again after a successful wait |
| Transfer.ReadvN | ACE/ace/ACE.cpp:2096-2132 | on every return exactly the first `bt` bytes that came in are in the first `bt` places of the buffers, and no other place of memory has changed |
| Transfer.RecvvN | ACE/ace/ACE.cpp:973-1028 | the same with retries |
| Transfer.StoreTwice | ACE/ace/ACE.cpp:973-1028 | storing in two parts is storing at once |
| Transfer.StoreLoad | ACE/ace/ACE.cpp:2096-2132 | buffers that do not overlap read back what was stored, and nothing else changes |
| MessageChain.TransferN | ACE/ace/ACE.cpp:1901-2094 | `write_n` and `send_n`, for any chain, array size and chunk size: on every return exactly the first `bt` bytes of the flattened chain have been written, and all of them if the result is positive |
| MessageChain.ChainCovers | ACE/ace/ACE.cpp:1913-1971 | built from any lists of blocks, with any `next` pointers in the blocks that others continue with, a chain covers the bytes of all blocks of all messages in order, as many as their lengths add up to |
| MessageChain.EveryChain | ACE/ace/ACE.cpp:1913-1971 | every chain is built that way |
| MessageChain.ChainAppends | ACE/ace/ACE.cpp:1969-1971 | chains one behind the other are covered one behind the other |
| MessageChain.MessageAppends | ACE/ace/ACE.cpp:1965-1967 | and so are the blocks of one message |
| MessageChain.AddBlock | ACE/ace/ACE.cpp:1918-1963 | cutting a block into chunks and flushing full arrays keeps what is sent, what waits and what is to come in order, and no buffer in the array is ever larger than a chunk |
| Glob.RunSound | ACE/ace/ACE.cpp:3406-3473 | what the matcher accepts matches the pattern |
| Glob.ExactIffSafe | ACE/ace/ACE.cpp:3406-3473 | the matcher agrees with the pattern's meaning on every C string if and only if every segment between stars is closed off by a star and cannot overlap itself at a mismatch, or the pattern matches nothing |
| Glob.UnsafeIsMissed | ACE/ace/ACE.cpp:3454-3461 | for every other pattern there is a C string that matches and is rejected |
| Glob.TrailingStarsSafe | ACE/ace/ACE.cpp:3406-3473 | patterns whose only stars are trailing are among those the matcher is exact for |
| Glob.InteriorStarMissed | ACE/ace/ACE.cpp:3454-3461 | "aa" matches `*a` and is rejected |
| Glob.EqualCharMeans | ACE/ace/ACE.cpp:3354-3359 | two characters compare equal exactly if they are the same, or, when case is ignored, the capital and the small form of one of the 26 letters |
| WildMatch.QuestionMarkText | ACE/ace/ACE.cpp:3435-3439 | a pattern `?` and a rest matches exactly the texts whose tail matches the rest |
| WildMatch.StarText | ACE/ace/ACE.cpp:3425-3434 | a pattern `*` and a rest matches exactly the texts of which some suffix matches the rest |
| WildMatch.EscapeText | ACE/ace/ACE.cpp:3420-3424 | a character behind a backslash stands for itself, whatever it is |
| WildMatch.OtherText | ACE/ace/ACE.cpp:3454-3467 | so does every other character, and the bracket where classes are not asked for |
| WildMatch.ClassText | ACE/ace/ACE.cpp:3363-3403 | a class and a rest matches exactly the texts whose first character its elements take in, or do not with `!` in front, and whose tail matches the rest; an element is a character, or a range given by values, where a hyphen makes a range unless it is first, last or the end of a valid range |
| WildMatch.SignednessIrrelevant | ACE/ace/ACE.cpp:3377-3385 | for every text and every pattern whose ranges have both ends below 128 or both from 128 on, the matcher's answer and the pattern's meaning are the same whether plain `char` is signed or not |
| WildMatch.HyphensOneSidedRanges | ACE/ace/ACE.cpp:3379-3383 | patterns whose hyphens all stand between characters on the same side of 128, in particular basic ASCII ones, are among those |
| WildMatch.RangeSignedness | ACE/ace/ACE.cpp:3377-3385 | the class [x-y] admits the same characters for signed and unsigned `char` if and only if its ends are on the same side of 128, or are 127 and 128, or 255 and 1 |
| WildMatch.EqualClass | ACE/ace/ACE.cpp:3363-3403 | for signed and for unsigned `char`, true exactly if the bracket expression admits the character, and the pointer is left on its closing bracket whatever the answer |
| WildMatch.InRange | ACE/ace/ACE.cpp:3385-3392 | the loop over a range finds exactly the characters whose values lie above its start, up to its end |
| WildMatch.MatchChars | ACE/ace/ACE.cpp:3415-3472 | the loops compute, for every well-formed pattern and either signedness of `char`, the matching with one restart point |
| WildMatch.WildMatch | ACE/ace/ACE.cpp:3406-3473 | null pointers as in the source; true implies a match; for safe patterns true exactly for a match |
| FrameSize.Gcd | ACE/ace/ACE.cpp:2894-2906 | the result is a common divisor that every common divisor divides |
| FrameSize.Bezout | ACE/ace/ACE.cpp:2894-2906 | it is an integer combination of the two numbers |
| FrameSize.FrameSizeIsLcm | ACE/ace/ACE.cpp:2923-2949 | the four branches give the least common multiple if and only if the product fits the type or one period divides the other |
| FrameSize.MinimumFrameSize | ACE/ace/ACE.cpp:2908-2949 | the method, with its results for zero periods |
| FrameSize.OverflowHappens | ACE/ace/ACE.cpp:2923-2949 | with 32 bits, the periods 0x10000 and 0x18000 have a least common multiple that fits and another frame size |
| ArgShifter.FrontKeepsOrder | ACE/ace/Arg_Shifter.cpp:169-189 | after any calls the front holds the ignored arguments in their original order |
| ArgShifter.FrontAndBack | ACE/ace/Arg_Shifter.cpp:149-189 | front and back together are the arguments visited so far |
| ArgShifter.Shifter.Rearranged | ACE/ace/Arg_Shifter.cpp:149-189 | the first `argc` slots are always the ignored arguments in order, and once all are visited the vector is a permutation of the original |
| ArgShifter.Shifter.constructor | ACE/ace/Arg_Shifter.cpp:47-74 | the arguments are saved and their slots cleared, the rest of the vector is untouched |
| ArgShifter.Shifter.ConsumeArg | ACE/ace/Arg_Shifter.cpp:149-168 | with enough arguments left the next ones go in front of those consumed before, into slots nobody has written; with too few nothing changes; the shifter stays valid if and only if the count is not negative |
| ArgShifter.Shifter.IgnoreArg | ACE/ace/Arg_Shifter.cpp:170-189 | with enough arguments left the next ones go behind those ignored before, into slots nobody has written; with too few nothing changes; the shifter stays valid if and only if the count is not negative |
| ArgShifter.ZeroOffset | ACE/ace/Arg_Shifter.h:141-157 | an offset of 0 means that the argument is the flag, or that the flag is empty and the argument does not start with a blank |
| ArgShifter.StartsWithMeans | ACE/ace/Arg_Shifter.cpp:129-147 | an argument starts with a flag if it has the flag's characters there, or their other cases |
| ArgShifter.EmptyFlagMatches | ACE/ace/Arg_Shifter.cpp:129-147 | an argument that is longer than its flag and has offset 0 |
| ArgShifter.Shifter.CurArgStrncasecmp | ACE/ace/Arg_Shifter.cpp:129-147 | -1 exactly if the current argument does not start with the flag, else where the rest after it and its blanks begins |
| ArgShifter.Shifter.GetTheParameter | ACE/ace/Arg_Shifter.cpp:100-127 | the rest of the argument, or the next argument if it is no option, and exactly when an argument is consumed |
| ArgvBuffer.InteriorQuotesAreEscaped | ACE/ace/ARGV.cpp:369-380 | every quote inside a quoted argument has a backslash in front of it |
| ArgvBuffer.JoinedFits | ACE/ace/ARGV.cpp:236-258 | what is written never needs more than the length reckoned by `add` plus one character an argument, and less by exactly the quotes that have a backslash already |
| ArgvBuffer.QuotedRoundTrip | ACE/ace/ARGV.cpp:369-394 | the scanner of `string_to_argv` reads a quoted argument back unchanged, and stops right behind it, if and only if it neither ends with a backslash nor has one in front of a quote |
| ArgvBuffer.ScanEscaped | ACE/ace/OS_NS_unistd.cpp:841-852 | what the scanner makes of any argument: it loses each backslash in front of a quote |
| ArgvBuffer.NotReadBack | ACE/ace/ARGV.cpp:369-394 | an argument that ends with a backslash and one with a backslash in front of a quote are not read back |
| ArgvBuffer.BufferRoundTrip | ACE/ace/OS_NS_unistd.cpp:749-870 | for every non-empty queue `string_to_argv` finds in the whole buffer exactly the arguments that were added if and only if the quoted ones are as above, the others are not empty and hold no white space or quotes, and the first one does not start a comment |
| ArgvBuffer.QuotesJoin | ACE/ace/OS_NS_unistd.cpp:775-797 | a closed section in single or double quotes, also one in the middle of a word, adds what is between the quotes to the argument; an argument with an unclosed one is dropped |
| ArgvBuffer.PlainMeans | ACE/ace/OS_NS_unistd.cpp:766-778 | arguments end at the six white-space characters of the C locale, and quotes are the two quote characters |
| ArgvBuffer.EmptyVanishes | ACE/ace/OS_NS_unistd.cpp:762-800 | an empty argument is not found again |
| ArgvBuffer.UnquotedBlankSplits | ACE/ace/OS_NS_unistd.cpp:762-800 | an unquoted argument with a blank is found as two |
| ArgvBuffer.Argv.Add | ACE/ace/ARGV.cpp:234-289 | refused unless iterative; the argument is queued, quoted only if it has a blank, and its room reckoned |
| ArgvBuffer.Argv.CreateBufFromQueue | ACE/ace/ARGV.cpp:330-412 | the buffer holds the encoded arguments, a blank between two and a null character at the end, written within the allocated size |
| ArrayMap.SwapRemoveIsErase | ACE/ace/Array_Map.cpp:100-125 | moving the last element to the erased place removes that key from the map and nothing else |
| ArrayMap.ArrayMap.Find | ACE/ace/Array_Map.cpp:160-174 | the index of the key's element, or the end exactly if the map does not have the key |
| ArrayMap.ArrayMap.Insert | ACE/ace/Array_Map.cpp:60-86 | the map gains the pair exactly if it did not have the key; an existing value stays |
| ArrayMap.ArrayMap.Erase | ACE/ace/Array_Map.cpp:100-125 | the map loses the position's key, the vacated slot is reset, and an invalid position changes nothing |
| ArrayMap.ArrayMap.EraseKey | ACE/ace/Array_Map.cpp:127-140 | the map loses the key; the result says whether it had it |
| ArrayMap.ArrayMap.Grow | ACE/ace/Array_Map.cpp:192-218 | the elements and their order stay, and there is room for s more |

## Left out

- The null-pointer result for `str == pat` is modelled for two null pointers only; two equal pointers to characters return true for any pattern.
- Bracket expressions without a closing bracket, and ranges that end at the largest value of plain `char`, 127 or 255: the source reads past the string or loops there.
- Locales other than POSIX, and characters of more than eight bits.
- The red-black tree inside the ready queue: it is the sequence of its items, searched from the front, and a node is known by its item.
- Hash map and tree allocation failures, reference counts of items, and failing calls of `thr_setprio` and `thr_getprio`.
- The overflow of user-supplied time types in the MUF comparator: times are unbounded integers.
- Thread priorities in the CV dispatcher, where they do not influence the admission of threads.
- In the results about runs of the dispatchers, threads that use several guids, and, in the CV dispatcher, threads that cancel another thread's guid: a thread and its guid are one number there. The objects' methods take any guid.
- Schedulers whose active, inactive and blocked priorities coincide: the three are all different in the direct dispatcher.
- The first value of `curr_scheduled_guid_`, which the source does not initialise (ACE/Kokyu/DSRT_Dispatcher_Impl_T.cpp:24-46): it starts at 0 here.
- The reading of the tree by `most_eligible` without the queue's lock, while an insertion or removal is under way.
- `DSRT_Direct_Dispatcher_Impl::shutdown_i` waiting for the executive to end; fairness of locks and of the operating system.
- The unbounded repetition of operations that would block: a script of answers is finite, of any length, and fails when it ends.
- Setting and restoring non-blocking mode in the timed variants of `sendv_n_i` and `recvv_n_i`; their loops are those of `SendvN` and `RecvvN`.
- Transfers of more than the largest signed size in one call are refused by the modelled system, as POSIX has it; lengths and totals are otherwise unbounded.
- MessageChain.TransferN: one method for `write_n` and `send_n`, which differ only in the transfer they call; its innermost loop is the method AddBlock.
- What further calls on an argument shifter do after a negative count: they read and write out of range.
- `argv()` between calls of `add`, which recounts the arguments by scanning the buffer; environment variables in `string_to_argv`, whose two passes are one function here.
- `ACE_Array_Map::erase(first, last)` and its range constructor, for which no statement about a map holds; allocators and destruction.
- The sockets, reactors, proactors and all other parts of the library, which add no algorithm of this kind.
