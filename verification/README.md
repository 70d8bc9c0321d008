# d4np-c in Dafny

A model of the parts of the d4np-c utility library whose correctness does not show in any single
function: the thread pool and its semaphore, the open-addressed hash map, the two lock-free
single-producer / single-consumer queues, the block pool allocator, the intrusive list, integer
parsing, path joining, string splitting and FNV-1a hashing.

`dafny verify dfyconfig.toml` checks everything.

## How the model is laid out

| file | what it models | form |
|---|---|---|
| `ThreadPool.dfy`, `TaskQueue.dfy` | `d4np/concurrency/thread_pool.c` | step system for any number of workers and submitters; a class for the linked task queue inside it |
| `Semaphore.dfy` | `d4np/concurrency/semaphore.c`, POSIX branch | step system at mutex / condition-variable granularity, refining an abstract counting semaphore |
| `PoolOnSemaphore.dfy` | the pool of `thread_pool.c` calling wait and post of `semaphore.c` | product of the two step systems, refining the pool on the abstract semaphore |
| `TaskNodes.dfy` | the task nodes of `thread_pool.c` | step system over an explicit heap with address reuse, refining the pool |
| `PoolTraces.dfy`, `NodeTraces.dfy`, `PoolRealized.dfy` | the same, by their runs | legality of event sequences, answers of submissions, and that the refinements can do all the pool can |
| `SemaphoreTraces.dfy`, `RingTraces.dfy`, `QueueTraces.dfy`, `HashTraces.dfy` | semaphore, queues and hash map seen by their callers | answers as functions of the calls, wait-freedom, calls left to themselves |
| `HashTable.dfy`, `HashRuns.dfy`, `HashMap.dfy` | `d4np/ds/hashmap.c` | the table as a value, its whole runs, and a class over the three arrays |
| `RingBuffer.dfy` | `d4np/ds/ring_buffer.c` | step system with wrapping counters, refining one with unbounded counters |
| `AtomicQueue.dfy` | `d4np/concurrency/atomic_queue.c` | step system over an explicit heap with address reuse |
| `BlockPool.dfy` | `d4np/mem/pool.c` | class over a byte array, free-list pointers inside the slots |
| `LinkedList.dfy` | `d4np/ds/linked_list.c` | classes |
| `ParseInt.dfy` | `d4np/str/parse.c` | methods with loops against a scan function, and a grammar |
| `ParseLaws.dfy` | `d4np/str/parse.c` | character tables and every way of writing a number |
| `PathJoin.dfy` | `d4np/io/path.c` | in-place buffer writer against an ideal join |
| `StrView.dfy` | `d4np/str/str_view.c` | methods against the list of fields |
| `Fnv.dfy` | `d4np/sys/hash.c` | loops against a recursive definition |
| `Words.dfy`, `Sums.dfy`, `Common.dfy` | 64-bit words, bitwise operators, counting, statuses | shared definitions |

The concurrent files are step systems: an event is enabled in a state or not, and applying it gives
the next state. Runs are arbitrary finite sequences of enabled events, so a lemma about every
reachable state is a lemma about every interleaving. Critical sections of a mutex are one step in
the thread pool; in the semaphore, locking, checking, sleeping, waking, signalling and unlocking are
separate steps. Allocation is a step or a flag that may fail. Fields marked "history" in a state are
never read by a guard.

## Where code and comments disagree

- The comment at the top of `d4np/concurrency/thread_pool.c` (lines 9-10) says that all submitted
  tasks run before any worker exits. That is true exactly for pools of one thread
  (`CommentTrueOnlyForOneThread`). What holds for every pool is that all accepted tasks are claimed
  before the first exit and have finished when the joins are done.
- `d4np/ds/ring_buffer.h` promises at least the requested capacity. The doubling loop saturates at
  2^63, so `Init` meets the promise exactly for requests up to 2^63 (`InitFallsShort` is the first
  request beyond, given an allocator that answers a request for 2^63 bytes; without such a block the
  same call is out of memory).
- `d4np/str/parse.h` lists trailing garbage under the invalid-argument status. When the digit run
  already exceeds the range, the code reports overflow without looking at what follows
  (`OverflowIffExceeds`).
- `d4np_hashmap_init` does not check its stride rounding; `StrideUsableIffNoWrap` gives the sizes for
  which the map is usable. The map lemmas assume such strides; `DefaultConfigLawful` and `Init` derive
  them from the sizes.

## Model

| member | source | states |
|---|---|---|
| `ThreadPool.StepInv` | d4np/concurrency/thread_pool.c:67-209 | every step of any worker, submitter or the destroying thread keeps the permit ledger, FIFO claiming, single ownership of running tasks and late exits |
| `ThreadPool.PermitLedger` | d4np/concurrency/thread_pool.c:160-201 | in every reachable state free permits + workers holding one + posts still owed = queue length + shutdown posts - exited workers |
| `ThreadPool.ClaimedOnceInOrder` | d4np/concurrency/thread_pool.c:72-86 | each accepted task is claimed exactly once, in acceptance order, and is then either finished or run by exactly one worker |
| `ThreadPool.ExitOnlyAfterEverythingClaimed` | d4np/concurrency/thread_pool.c:70-78 | no worker exits before shutdown has begun and every accepted task has been claimed |
| `ThreadPool.DestroyFinishesEverything` | d4np/concurrency/thread_pool.c:183-209 | when the joins are done all accepted tasks have finished, the semaphore is at zero, no submitter still owes it a post, and the drain loop frees nothing |
| `ThreadPool.DrainFindsNothing` | d4np/concurrency/thread_pool.c:195-203 | the defensive drain loop is dead code |
| `ThreadPool.RollbackAcceptsNothing` | d4np/concurrency/thread_pool.c:124-144 | a pool whose init was rolled back after a failed spawn never accepted a task |
| `ThreadPool.Progress` | d4np/concurrency/thread_pool.c:67-88 | a queued task is never stranded and shutdown never blocks: some worker, owed-post or destroy step is enabled |
| `ThreadPool.StepsBounded` | d4np/concurrency/thread_pool.c:67-193 | whatever the schedule, the productive steps are bounded by a measure of the state plus four for every task accepted meanwhile |
| `ThreadPool.ServingRestIffFinished` | d4np/concurrency/thread_pool.c:67-88 | a serving pool has no productive step left if and only if every accepted task has finished |
| `ThreadPool.ServingCompletes` | d4np/concurrency/thread_pool.c:67-176 | a serving pool works off its load in boundedly many steps and comes to rest exactly with everything finished |
| `ThreadPool.ShutdownStepsBounded` | d4np/concurrency/thread_pool.c:183-193 | from the start of shutdown the productive steps of every schedule are bounded by a measure of the state |
| `ThreadPool.ShutdownTerminates` | d4np/concurrency/thread_pool.c:178-209 | shutdown ends in boundedly many steps, and a schedule has run out of productive steps exactly when destroy has returned with every accepted task finished |
| `ThreadPool.ExitWhileRunning` | d4np/concurrency/thread_pool.c:7-10 | with two or more threads a worker can exit while another still runs an accepted task |
| `ThreadPool.CommentTrueOnlyForOneThread` | d4np/concurrency/thread_pool.c:7-10 | the claim that all tasks run before any exit holds if and only if the pool has one thread |
| `PoolTraces.RunsAreLegal` | d4np/concurrency/thread_pool.c:67-209 | a sequence of events is a run if and only if each event is permitted by counting those before it: who may submit, post, acquire, claim, exit, finish, shut down and join, and when |
| `PoolTraces.HistoryIsTrace` | d4np/concurrency/thread_pool.c:67-209 | accepted, claimed and finished tasks, permits and phase after a run are functions of its events |
| `PoolTraces.AnswersOfSubmit` | d4np/concurrency/thread_pool.c:160-175 | a submission is refused only after shutdown has begun or init has failed, and accepted only after init and before |
| `PoolTraces.ServingAccepts` | d4np/concurrency/thread_pool.c:160-175 | a pool initialised and not told to shut down accepts any task from any submitter that owes no post, whatever is queued, and can be told to shut down |
| `PoolTraces.ShutdownRefuses` | d4np/concurrency/thread_pool.c:161-165 | once shutdown has begun every submission is refused without effect |
| `PoolTraces.InitMayFail` | d4np/concurrency/thread_pool.c:124-144 | init may fail at any thread, and what was started is then shut down |
| `TaskQueue.TaskQueue.Append` | d4np/concurrency/thread_pool.c:166-171 | linking behind the tail appends one task to the queue |
| `TaskQueue.TaskQueue.TakeFirst` | d4np/concurrency/thread_pool.c:73-82 | the head node is removed, NULL exactly when the queue is empty, and the tail is kept consistent |
| `TaskQueue.TaskQueue.DrainAll` | d4np/concurrency/thread_pool.c:196-203 | the drain loop visits every remaining node exactly once and empties the queue |
| `TaskNodes.StepInv` | d4np/concurrency/thread_pool.c:67-209 | every step of a submitter, worker or the destroying thread is memory safe and keeps the list, single ownership of every node and the allocation accounts |
| `TaskNodes.RefinesPool` | d4np/concurrency/thread_pool.c:67-209 | with nodes and pointers the pool reaches only states of the step system of the pool |
| `TaskNodes.NoUseAfterFree` | d4np/concurrency/thread_pool.c:72-86 | in every reachable state every possible step goes only through pointers to live nodes, its own or, in a locked section, the queue's |
| `TaskNodes.WorkersRunAcceptedTasks` | d4np/concurrency/thread_pool.c:72-86 | the list from q_head is the queue, and the function and argument a worker reads from its node are those of the accepted task it claimed |
| `TaskNodes.EachNodeFreedOnce` | d4np/concurrency/thread_pool.c:85-199 | allocations minus frees are the live nodes, and when destroy is done only submitters still on their way to a rejection have one |
| `TaskNodes.RestIsClean` | d4np/concurrency/thread_pool.c:67-209 | a pool that has no step left but a new submission or the decision to shut down has freed every node and finished every task |
| `TaskNodes.StepsBounded` | d4np/concurrency/thread_pool.c:67-209 | every schedule is bounded by the state it starts from plus fifteen steps per submission |
| `TaskNodes.EveryNodeIsFreed` | d4np/concurrency/thread_pool.c:67-209 | so without new submissions every schedule ends, and where it can go no further nothing is left allocated |
| `NodeTraces.AnswersOfSubmit` | d4np/concurrency/thread_pool.c:160-175 | with real nodes too, a submission is refused only after shutdown has begun or init has failed, and accepted only before |
| `NodeTraces.ServingAccepts` | d4np/concurrency/thread_pool.c:147-175 | after any run that has initialised the pool and not shut it down, every free submitter can have any task accepted |
| `NodeTraces.SubmitRefused` | d4np/concurrency/thread_pool.c:161-165 | a refused submission leaves the pool as it was and no node behind |
| `NodeTraces.SubmitNeverBlocked` | d4np/concurrency/thread_pool.c:152-175 | inside submit there is always a next step: a filled node is queued exactly while the pool serves and refused exactly once it shuts down |
| `NodeTraces.RealizesPool` | d4np/concurrency/thread_pool.c:67-209 | every state the pool reaches it also reaches with real nodes |
| `Semaphore.StepInv` | d4np/concurrency/semaphore.c:99-134 | every step, spurious wakeups and stolen permits included, keeps mutual exclusion, permit conservation and the no-lost-wakeup property, and a poster on its way out leaves its permit in place |
| `Semaphore.Refines` | d4np/concurrency/semaphore.c:99-134 | every run is, permit for permit, a run of the abstract counting semaphore |
| `Semaphore.RefinesFromInit` | d4np/concurrency/semaphore.c:72-134 | count = initial + posts - acquisitions after every run from init |
| `Semaphore.PostConservesIffNotFull` | d4np/concurrency/semaphore.c:126-134 | a post keeps the count exact if and only if the 64-bit counter is not at its maximum |
| `Semaphore.WrapFromAny` | d4np/concurrency/semaphore.c:72-134 | from every initial count, those init can receive included, a run of posts wraps the counter to zero and loses every permit |
| `Semaphore.SleepersAreCovered` | d4np/concurrency/semaphore.c:99-109 | with the mutex free and a thread asleep, at least `count` awakened threads are on their way to recheck |
| `Semaphore.QuiescentMeansNoPermit` | d4np/concurrency/semaphore.c:99-134 | if nothing can move, every call has returned or sleeps in wait, and a sleeper implies that there is no permit |
| `Semaphore.WaitersServed` | d4np/concurrency/semaphore.c:99-134 | without new calls and spurious wakeups the system settles within a bound, and a waiter is then left asleep only if every permit ever made available was acquired |
| `SemaphoreTraces.AnswersMatchPermits` | d4np/concurrency/semaphore.c:99-134 | in every run the count is the initial one plus increments less permits taken, trywait has answered or is about to answer true once per permit it took and false once per refusal |
| `SemaphoreTraces.TryAnswer` | d4np/concurrency/semaphore.c:111-124 | a trywait answers true exactly when the count was positive at its decision, whatever happens before it returns |
| `SemaphoreTraces.CallsAlwaysPossible` | d4np/concurrency/semaphore.c:99-134 | a thread outside the semaphore may make any call at any time, and one that wants the mutex gets it once it is free |
| `SemaphoreTraces.PostAlone` | d4np/concurrency/semaphore.c:126-134 | with the mutex free a post adds a permit, wakes a sleeper if there is one, and disturbs nobody else |
| `SemaphoreTraces.TryAlone` | d4np/concurrency/semaphore.c:111-124 | with the mutex free a trywait takes a permit and answers true, or finds none and answers false |
| `SemaphoreTraces.WaitAlone` | d4np/concurrency/semaphore.c:99-109 | with the mutex free a wait takes a permit, or sleeps when there is none and gives the mutex back |
| `PoolOnSemaphore.StepInv` | d4np/concurrency/thread_pool.c:67-209 | with the semaphore calls of the pool spread over their lock, check, sleep, signal and unlock steps, every step keeps both invariants, the counter equal to the permits, and each thread where its role allows |
| `PoolOnSemaphore.RefinesPool` | d4np/concurrency/thread_pool.c:67-209 | the pool on the mutex-and-condition-variable semaphore reaches only states of the pool on the abstract one, and no post ever wraps the counter |
| `PoolOnSemaphore.SemaphoreUnusedAtDestroy` | d4np/concurrency/thread_pool.c:189-208 | when the workers are joined no thread is inside any semaphore function, not even between its increment and its unlock, so the semaphore may be destroyed |
| `PoolOnSemaphore.NoDeadlock` | d4np/concurrency/thread_pool.c:67-88 | as long as the pool has something to do, some thread can take a step: no wakeup is lost and no post comes too late |
| `PoolOnSemaphore.StepsBounded` | d4np/concurrency/thread_pool.c:67-193 | the effective steps of every schedule are bounded by the state, the tasks submitted meanwhile and the spurious wakeups |
| `PoolOnSemaphore.ShutdownTerminates` | d4np/concurrency/thread_pool.c:178-209 | destroy on the mutex-and-condition-variable semaphore takes boundedly many steps plus five per spurious wakeup, so it ends without a fairness assumption if those are finitely many, and a schedule is out of steps exactly when it has ended with every task finished and no thread inside the semaphore |
| `PoolOnSemaphore.ServingRestHasFinished` | d4np/concurrency/thread_pool.c:67-88 | a serving pool in which nothing can move has finished all it accepted, its threads idle or asleep |
| `PoolRealized.SubmitNeverBlocked` | d4np/concurrency/thread_pool.c:160-174 | a submitter outside the semaphore that owes no post is accepted exactly while the pool serves, given memory, and refused exactly once it shuts down |
| `PoolRealized.RealizesPool` | d4np/concurrency/thread_pool.c:67-209 | every state the pool reaches it also reaches on the mutex-and-condition-variable semaphore |
| `HashTable.ProbeVisitsOnce` | d4np/ds/hashmap.c:81-82 | the probe sequence from any home slot visits each slot exactly once |
| `HashTable.ProbeIsMasked` | d4np/ds/hashmap.c:77-82 | masking with capacity - 1 computes that probe sequence |
| `HashTable.LoopLeaves` | d4np/ds/hashmap.c:81-95 | from any probe on, with an EMPTY slot in the table, the loop leaves at the first EMPTY slot or match and found says which |
| `HashTable.LocateCorrect` | d4np/ds/hashmap.c:74-96 | locate finds the matching entry or a free slot at which the key stays findable; its loop leaves at a probe whose slot is EMPTY or matches, no earlier one being either, so it never falls through to its last return, and a miss returns the first tombstone passed |
| `HashTable.InsertAgrees` | d4np/ds/hashmap.c:213-226 | overwriting or inserting, with tombstone reuse, is the update of the finite map |
| `HashTable.GetAgrees` | d4np/ds/hashmap.c:229-237 | a lookup is the lookup in the finite map |
| `HashTable.RemoveAgrees` | d4np/ds/hashmap.c:244-258 | removal removes exactly the entry with an equal key and reports whether there was one |
| `HashTable.ClearAgrees` | d4np/ds/hashmap.c:265-273 | clear leaves the empty map |
| `HashTable.RehashCorrect` | d4np/ds/hashmap.c:129-145 | re-insertion yields a sound table with exactly the old entries and no tombstone |
| `HashRuns.ResizeAgrees` | d4np/ds/hashmap.c:98-151 | resizing preserves the map and drops tombstones; it overflows exactly when keys or values exceed 64 bits and is out of memory exactly when it fits and there is none, and then changes nothing |
| `HashRuns.PutAgrees` | d4np/ds/hashmap.c:199-227 | put answers OK below the load factor, else overflow exactly when the doubled or first capacity is too big and out of memory exactly when it fits and there is none; OK updates the map, a failure leaves the table untouched |
| `HashRuns.ArithmeticNeverWraps` | d4np/ds/hashmap.c:102-104 | the load-factor and doubling arithmetic stays below 2^64 |
| `HashRuns.RunAgrees` | d4np/ds/hashmap.c:199-273 | from any table that agrees with a map, every run gives the replies of a finite map |
| `HashRuns.TableIsAFiniteMap` | d4np/ds/hashmap.c:155-273 | from init on, whatever the operations and allocation failures, replies and contents are those of a finite map over key classes, with len its size, whose puts fail only without memory or after too many puts |
| `HashRuns.ReachableTables` | d4np/ds/hashmap.c:74-96 | in every reachable table the capacity is a power of two, some slot is EMPTY, and no EMPTY slot lies between an entry and its home slot |
| `HashRuns.StepCost` | d4np/ds/hashmap.c:205-226 | re-insertions of one operation are paid by the potential plus two units per put |
| `HashRuns.RehashingIsAmortized` | d4np/ds/hashmap.h:89-89 | over any run the resizes re-insert at most two entries per put |
| `HashRuns.ScanCost` | d4np/ds/hashmap.c:129-145 | the old slots one resize visits are paid by the same potential |
| `HashRuns.ScanningIsAmortized` | d4np/ds/hashmap.h:89-89 | over any run the resizes visit at most eight old slots per three puts, tombstones and EMPTY slots included |
| `HashTraces.MapLaws` | d4np/ds/hashmap.c:199-258 | lookup after put and remove in the finite map, for every pair of keys |
| `HashTraces.AnswersAreLatestWrites` | d4np/ds/hashmap.c:199-273 | in every run a get answers the value of the latest successful put of an equal key that no remove of an equal key and no clear has followed, and a remove tells whether there is one |
| `HashTraces.PutsSucceed` | d4np/ds/hashmap.c:205-211 | in every run of fewer puts than could ask for 2^64 bytes each put with memory succeeds |
| `HashTraces.SpaceIsLinear` | d4np/ds/hashmap.c:205-207 | over any run the capacity stays within the one init asked for, eight slots, or eight slots per three puts |
| `HashMap.LocateIn` | d4np/ds/hashmap.c:74-96 | the probe loop over the arrays computes locate and leaves at the first probe that is EMPTY or matches, falling through only if there is none |
| `HashMap.ProbeEmpty` | d4np/ds/hashmap.c:135-144 | the inner resize loop finds the first EMPTY slot from the home slot |
| `HashMap.RehashInto` | d4np/ds/hashmap.c:129-145 | the re-insertion loop fills fresh arrays with the rehash of the old ones |
| `HashMap.HashMap.constructor` | d4np/ds/hashmap.c:163-175 | init starts with an empty map and no storage |
| `HashMap.HashMap.InitCapacity` | d4np/ds/hashmap.c:177-180 | a capacity hint is rounded to the least power of two from 8 on; overflow exactly when the keys or values of that capacity exceed 64 bits, out of memory exactly when the allocator fails, and a failure leaves a usable empty map |
| `HashMap.Init` | d4np/ds/hashmap.c:155-181 | exact error conditions of init, and a valid empty map with rounded strides in every other case |
| `HashMap.HashMap.LocateKey` | d4np/ds/hashmap.c:74-96 | on a valid map the answer is a match or an insertable free slot, and the loop leaves at a probe instead of running out of them |
| `HashMap.HashMap.ResizeTo` | d4np/ds/hashmap.c:98-151 | allocation, re-insertion and swap are the resize of the table, the map unchanged |
| `HashMap.HashMap.Put` | d4np/ds/hashmap.c:199-227 | put on the arrays is put on the table and on the map, with the exact condition of every status |
| `HashMap.HashMap.Get` | d4np/ds/hashmap.c:229-237 | get returns the map's value |
| `HashMap.HashMap.Remove` | d4np/ds/hashmap.c:244-258 | remove on the arrays is removal from the map |
| `HashMap.HashMap.Clear` | d4np/ds/hashmap.c:265-273 | clear empties the map and keeps the capacity |
| `HashMap.StrideUsableIffNoWrap` | d4np/ds/hashmap.c:43-46 | the unchecked stride of init is usable if and only if the size plus 15 stays below 2^64; otherwise it is zero |
| `RingBuffer.StepInv` | d4np/ds/ring_buffer.c:78-108 | with unbounded counters every load, copy and publish step keeps the window, the contents and the bounds on stale indices |
| `RingBuffer.StepsCorrespond` | d4np/ds/ring_buffer.c:83-89 | wrapping and unbounded machines enable the same steps, so full and empty tests agree on stale indices, and reach corresponding states |
| `RingBuffer.IndexExact` | d4np/ds/ring_buffer.c:88-88 | masking a wrapped counter picks the slot of the unbounded one |
| `RingBuffer.Refines` | d4np/ds/ring_buffer.c:78-108 | every run of the wrapping code is a run with unbounded counters |
| `RingBuffer.Fifo` | d4np/ds/ring_buffer.c:78-108 | each pop with a buffer delivers the value pushed in its turn and one without delivers nothing, at most capacity elements are outstanding, and tail - head counts them |
| `RingBuffer.RefusalsAreGenuine` | d4np/ds/ring_buffer.c:83-102 | push is refused exactly when the buffer was full at its head load, pop exactly when it was empty at its tail load |
| `RingBuffer.CopiesNeverOverlap` | d4np/ds/ring_buffer.c:88-105 | a copy in and a copy out that are both in progress use different slots |
| `RingBuffer.CountInRange` | d4np/ds/ring_buffer.c:110-119 | count called from the producer or the consumer is within 0 and capacity |
| `RingBuffer.ObserverCount` | d4np/ds/ring_buffer.c:110-119 | for a third thread the result is in range if head has not passed the loaded tail and, within a lap, beyond capacity otherwise |
| `RingBuffer.CountReliableIffOwnSide` | d4np/ds/ring_buffer.c:110-119 | count is always in range if and only if the caller is the producer or the consumer |
| `RingTraces.PopsReturnPushes` | d4np/ds/ring_buffer.c:78-108 | in every run the i-th successful pop call delivers the argument of the i-th successful push call to a caller with a buffer and nothing to one without |
| `RingTraces.NeverBlocked` | d4np/ds/ring_buffer.c:78-119 | each side can begin a call whenever it is in none and otherwise has exactly one next step, whatever the other side is doing |
| `RingTraces.WaitFree` | d4np/ds/ring_buffer.c:78-119 | after its first load every call returns within four steps of its own, however the other side is interleaved |
| `RingTraces.PushAlone` | d4np/ds/ring_buffer.c:78-93 | a push left to itself appends its value unless capacity values are outstanding, whatever the consumer is in the middle of |
| `RingTraces.PopAlone` | d4np/ds/ring_buffer.c:95-108 | a pop left to itself takes the oldest outstanding value, or nothing when there is none |
| `RingTraces.ConsumerCountExact` | d4np/ds/ring_buffer.c:110-119 | the consumer's count is the number of values outstanding when it loaded tail |
| `RingTraces.ObserverCountExact` | d4np/ds/ring_buffer.c:110-119 | a third thread gets, modulo 2^64, what was pushed at its first load less what was popped at its second |
| `RingBuffer.Init` | d4np/ds/ring_buffer.c:36-62 | exact conditions of every status; the capacity is at least the request if and only if the request is at most 2^63 |
| `RingBuffer.InitFallsShort` | d4np/ds/ring_buffer.c:24-62 | a request for 2^63 + 1 elements of one byte succeeds with a smaller buffer when the allocator has 2^63 bytes |
| `Words.NextPow2AtLeast` | d4np/ds/ring_buffer.c:24-34 | the doubling loop gives the least power of two that suffices, saturating at 2^63 |
| `AtomicQueue.StepInv` | d4np/concurrency/atomic_queue.c:38-115 | every step is memory safe and keeps ownership, links, values and allocation accounts |
| `AtomicQueue.NoUseAfterFree` | d4np/concurrency/atomic_queue.c:83-115 | in every reachable state every possible step goes only through pointers to live memory, never into the other side's private node |
| `AtomicQueue.FifoDelivery` | d4np/concurrency/atomic_queue.c:83-115 | each dequeue with a buffer delivers the value published in its turn and one without delivers nothing, the nodes behind the head hold the values still to come, and empty is answered exactly when all were dequeued |
| `AtomicQueue.EachNodeFreedOnce` | d4np/concurrency/atomic_queue.c:68-115 | allocations minus frees are the live nodes, and after destroy none is left |
| `AtomicQueue.DestroyCompletes` | d4np/concurrency/atomic_queue.c:68-81 | destroy frees the whole chain in two steps per node |
| `AtomicQueue.TailMayDangle` | d4np/concurrency/atomic_queue.c:94-95 | between publishing a node and moving tail, tail can designate freed memory |
| `QueueTraces.DequeuesReturnEnqueues` | d4np/concurrency/atomic_queue.c:83-115 | in every run the i-th dequeue call delivers the argument of the i-th enqueue call to a caller with a buffer and nothing to one without, and every allocation is accounted for |
| `QueueTraces.NeverBlocked` | d4np/concurrency/atomic_queue.c:83-115 | each side can begin a call whenever it is in none, a dequeue finding a value exactly when one is undelivered, and otherwise has exactly one next step |
| `QueueTraces.WaitFree` | d4np/concurrency/atomic_queue.c:83-115 | an enqueue returns four steps after its allocation and a dequeue three after its load, however the other side is interleaved |
| `QueueTraces.EnqueueAlone` | d4np/concurrency/atomic_queue.c:83-97 | an enqueue left to itself appends its value, whatever the consumer is in the middle of |
| `QueueTraces.DequeueAlone` | d4np/concurrency/atomic_queue.c:99-115 | a dequeue left to itself takes the oldest undelivered value, or nothing when there is none |
| `Words.RoundUpExact` | d4np/mem/pool.c:19-23 | the masking trick rounds up exactly and gives zero when the sum wraps |
| `BlockPool.InitSizes` | d4np/mem/pool.c:28-52 | overflow is reported if and only if the true total size does not fit 64 bits, out of memory if and only if it fits and there is none |
| `BlockPool.StrideIsLeast` | d4np/mem/pool.c:35-38 | the stride is the least multiple of 16 that holds a block and an 8-byte pointer |
| `BlockPool.SlotPlacement` | d4np/mem/pool.c:37-47 | every slot is aligned, non-NULL, inside the block and on a slot boundary |
| `BlockPool.SlotsDisjoint` | d4np/mem/pool.c:61-66 | two blocks are disjoint if and only if they are different slots |
| `BlockPool.Init` | d4np/mem/pool.c:25-70 | exact conditions of every status, and on success a valid pool with all slots free |
| `BlockPool.ThreadFreeList` | d4np/mem/pool.c:61-68 | the threading loop builds the free list of all slots in address order |
| `BlockPool.PopKeepsList` | d4np/mem/pool.c:77-78 | following the link of the head leaves the list without it |
| `BlockPool.PushKeepsList` | d4np/mem/pool.c:93-95 | storing the head in a live slot and making it the head pushes it |
| `BlockPool.WriteKeepsList` | d4np/mem/pool.h:9-12 | arbitrary writes into a slot off the list never disturb the list |
| `BlockPool.PartitionCount` | d4np/mem/pool.c:113-116 | free slots plus live slots are all slots |
| `BlockPool.Pool.constructor` | d4np/mem/pool.c:54-69 | init makes every slot free |
| `BlockPool.Pool.Alloc` | d4np/mem/pool.c:72-81 | NULL exactly when every slot is live, otherwise a slot that was not live: aligned, in bounds, on a slot boundary and disjoint from every live block |
| `BlockPool.Pool.Free` | d4np/mem/pool.c:83-96 | a live slot becomes free and no byte of another slot changes |
| `BlockPool.Pool.ClientWrite` | d4np/mem/pool.h:9-12 | any byte written inside a live block keeps the pool valid |
| `BlockPool.Pool.Available` | d4np/mem/pool.c:113-116 | the free count is the number of slots that are not live |
| `LinkedList.LinkBetween` | d4np/ds/linked_list.c:10-16 | splicing between adjacent nodes keeps the ring |
| `LinkedList.Unlink` | d4np/ds/linked_list.c:18-24 | unlinking a member closes the ring over it and clears its links |
| `LinkedList.List.constructor` | d4np/ds/linked_list.c:26-34 | an empty ring around the sentinel |
| `LinkedList.List.PushFront` | d4np/ds/linked_list.c:36-43 | the deque gains the node at its front |
| `LinkedList.List.PushBack` | d4np/ds/linked_list.c:45-52 | the deque gains the node at its back |
| `LinkedList.List.PopFront` | d4np/ds/linked_list.c:54-63 | the first node is removed and returned with its links cleared, NULL if there is none |
| `LinkedList.List.PopBack` | d4np/ds/linked_list.c:65-74 | the last node is removed and returned with its links cleared, NULL if there is none |
| `LinkedList.List.Remove` | d4np/ds/linked_list.c:76-83 | exactly the given member is removed |
| `LinkedList.List.Forward` | d4np/ds/linked_list.h:56-57 | forward iteration visits the deque in order |
| `LinkedList.List.Backward` | d4np/ds/linked_list.h:30-34 | following the prev links visits it in reverse |
| `ParseInt.Accumulate` | d4np/str/parse.c:71-87 | the accumulation loop yields the value of the digit run, or overflow exactly when it exceeds the limit, without ever wrapping |
| `ParseInt.ParseInteger` | d4np/str/parse.c:30-105 | the whole scan, with all error paths, computes the parse function |
| `ParseInt.ParsedIffDenotes` | d4np/str/parse.c:39-105 | OK with v if and only if the text is white space, sign, prefix, digits, white space of value v in 64-bit range |
| `ParseInt.OverflowIffExceeds` | d4np/str/parse.c:71-87 | overflow if and only if the maximal digit run exceeds the limit of its sign, whatever follows |
| `ParseInt.RoundTrip` | d4np/str/parse.h:27-41 | the canonical numeral of every 64-bit integer in every base parses back |
| `ParseInt.RoundTripAuto` | d4np/str/parse.c:56-66 | decimal numerals parse back with an auto-detected base |
| `ParseLaws.DigitTable` | d4np/str/parse.c:16-28 | the digits are those of the lower-case and upper-case alphabets, in order, and no others |
| `ParseLaws.SpaceTable` | d4np/str/parse.c:43-45 | white space is the six characters of the C locale |
| `ParseLaws.IgnoresCase` | d4np/str/parse.c:16-69 | upper-case and lower-case texts parse alike |
| `ParseLaws.ReadsWhatIsWritten` | d4np/str/parse.c:30-105 | white space, any sign, any prefix the base allows, the digits of any number and white space: the number is read back, or reported as overflow exactly when out of range |
| `ParseLaws.OtherwiseInvalid` | d4np/str/parse.c:35-101 | any other text and any other base is an invalid argument |
| `PathJoin.EmitJoin` | d4np/io/path.c:34-72 | trimming and the bounded writer put the fitting prefix of the ideal join into the buffer and count its full length character by character |
| `PathJoin.Combine` | d4np/io/path.c:20-79 | for every buffer size the output is the NUL-terminated prefix of length min(total, size - 1), a C reader sees exactly that prefix, total is the full length, the rest of the buffer is untouched |
| `PathJoin.ReadsBack` | d4np/io/path.c:75-77 | a NUL-terminated prefix of NUL-free text reads back as that prefix |
| `PathJoin.JoinNulFree` | d4np/io/path.c:20-79 | joining NUL-free segments gives NUL-free text |
| `PathJoin.JoinReadsBack` | d4np/io/path.c:75-78 | a buffer that holds a prefix of the join of NUL-free segments and its terminator reads back as that prefix |
| `PathJoin.Associative` | d4np/io/path.c:34-72 | joining is associative for all segments, empty and separator-only ones included |
| `PathJoin.JoinAtSeam` | d4np/io/path.c:34-72 | for every pair of segments: one separator between two non-empty texts, none beside an empty one, and a single one for a root |
| `StrView.SplitNext` | d4np/str/str_view.c:38-62 | one call yields the first remaining field as a slice and a view of the others |
| `StrView.Split` | d4np/str/str_view.c:64-75 | the array receives the first fields, the result counts all of them |
| `StrView.JoinSplit` | d4np/str/str_view.h:64-72 | joining the fields of a text restores it |
| `StrView.SplitJoin` | d4np/str/str_view.h:64-72 | splitting the join of separator-free fields restores the list |
| `StrView.FieldsSeparatorFree` | d4np/str/str_view.c:44-53 | no field contains the separator |
| `StrView.FieldCount` | d4np/str/str_view.c:64-75 | there is one field more than there are separators |
| `Fnv.HashContinue` | d4np/sys/hash.c:13-24 | the loop computes the recursive hash; NULL data leaves the seed |
| `Fnv.Hash` | d4np/sys/hash.c:26-29 | hashing starts from the offset basis |
| `Fnv.DefaultHash` | d4np/ds/hashmap.c:24-34 | the hash map's private hash is the public one |
| `Fnv.MixIs` | d4np/sys/hash.c:18-21 | one step is the exclusive or with the byte and then the product with 1099511628211 modulo 2^64 |
| `Fnv.PublishedValues` | d4np/sys/hash.c:13-29 | the hashes of the empty string and of "a" are the published ones |
| `Fnv.Compositional` | d4np/sys/hash.h:48-52 | hashing in two chunks is hashing the concatenation |
| `Fnv.ContinueInvertible` | d4np/sys/hash.c:13-24 | for fixed data, continuing a hash is a bijection on 64-bit words |
| `Fnv.OneByteChangesHash` | d4np/sys/hash.c:18-21 | equal-length inputs that differ in exactly one byte have different hashes |
| `Fnv.DefaultConfigLawful` | d4np/ds/hashmap.c:163-175 | with the strides init computes, the default hash and byte-wise equality meet the hash map's requirements if and only if neither stride wraps |

## Left out

- A full address space: in `PoolOnSemaphore` a submission finds memory only while queued tasks and workers together number less than 2^64.
- The Win32 branches, `mutex.c` and `named_semaphore.c`: thin wrappers over OS primitives; lock, condition wait and join are steps.
- `file.c`, `log.c`, `clock.c`, `uuid.c`: I/O, OS clocks and seeding.
- `d4np_allocator.c`: allocation is an operation that may fail and otherwise returns fresh memory.
- `arena.c`, `vector.c`, `string_builder.c`, `error_context.c`: their properties are easier versions of those proved for the pool and the hash map.
- `d4np_str_parse_float`: a wrapper over `strtod`.
- C11 weak memory: atomics are interleaved steps; the other side's index may be stale but not reordered.
- Byte-level layout of keys, values and queue elements: they are values of a type parameter; sizes matter only in the overflow checks.
- In-place form of the concurrent operations: the thread pool, semaphore, ring buffer and linked queue are step systems on values, because their calls interleave; their buffers and counters are components of the state.
- Pointers handed out by `d4np_hashmap_get`: writing through them is not modelled.
- NULL checks on the object pointer itself (`m`, `pool`, `rb`, `q`, `list`), and destroy of the hash map, ring buffer and block pool: they only reset fields.
- The argument checks of `d4np_atomic_queue_init` and `d4np_thread_pool_init` (zero sizes, one overflow test each): easier versions of those of the pool allocator and the ring buffer.
- Caller misuse the headers exclude: several producers or consumers, foreign or double frees, removing a node that is not in the list, using a pool after destroying it.
- Locale-dependent white space: the six white-space characters of the C locale are fixed.
