# poski: the POSIX message queue and the wrappers around it, modelled and proved

poski is a portability layer over POSIX, FreeRTOS, RT-Thread and Zephyr. On POSIX it implements
its own message queue: a byte ring with free-running 16-bit indices (`OsRing`), a monitor around
it with a recursive mutex and one condition variable (`RingPthread`), and a C interface that runs
a signal callback after each put (`pos_queue_*`). This project models that queue, the C++ mutex and
semaphore wrappers, the Zephyr stack pool, the tick conversions and the interruptible sleep, and
proves what they keep over whole runs.

## How it is organised

| file | contents |
|---|---|
| `types.dfy`, `bits.dfy` | options, bytes, result codes; the C operator `&` and what masking a wrapped counter does |
| `ring.dfy`, `osring.dfy` | the ring as a value with its bytes decoded into a queue, and `OsRing` as a class proved against it |
| `monitor.dfy` | the queue as interleaved steps: one lock operation, condition-variable operation, test or copied byte at a time |
| `monitor_safety.dfy`, `monitor_fifo.dfy` | each step keeps mutual exclusion, the threads' local facts, conservation, order, the wakeup bound, the callback count |
| `monitor_calls.dfy` | the calls that a run's callers make, and how the threads' records account for each of them |
| `monitor_runs.dfy`, `monitor_ends.dfy` | the theorems about every run, and where runs end |
| `monitor_solo.dfy` | an uninterrupted call of the step system is the call of the class; runs that reach the ends |
| `posix_queue.dfy`, `os_queue.dfy` | `RingPthread` and `struct pos_queue` as classes, one call at a time |
| `mutex.dfy`, `semaphore.dfy` | `OsMutex` and `OsSemaphore`, as classes and as interleaved steps, with what an uninterrupted call does |
| `semaphore_range.dfy` | for which semaphores the 32-bit count of net takes is always exact |
| `stackpool.dfy` | the Zephyr stack pool behind `OsTask` |
| `time.dfy` | tick conversion and `pos_task_sleep_ms` |

An assertion of the code is a precondition of the class methods and a terminal abort in the step
systems. The primitives behave as POSIX.1-2017, System Interfaces, section 2.9 and the pages for
`pthread_cond_wait`, `pthread_cond_signal` and `pthread_mutexattr_settype` say: a signal unblocks
at least one sleeper if there is any, wakeups may be spurious, a thread may take the mutex ahead of
a woken one, and a mutex locked n times is free after n unlocks. Steps are sequentially consistent.
The number of threads, the ring's capacity and item size, and the length of a run are arbitrary. A
callback may call the queue again, to any depth.

Arithmetic that wraps in C is written out: `U16` for the ring's indices, `U32` for the mutex's mirror and for
the conversion of waiting times, `S32` for the semaphore's, a modulus of 2^width for ticks.

## Where the code and its documentation differ

The model follows the code.

- include/poski/osal/os_queue.h describes a waiting period for `pos_queue_get`. The code uses it only to
  choose between deciding at once and waiting without limit. It passes the period to a `uint32_t`
  parameter (targets/posix/os_queue.cc:69), while `pos_time_t` has 64 bits on Apple builds
  (targets/posix/poski/osal/os_time.h:40), so what counts is whether the low 32 bits are zero. `LoneGet` says
  that a get alone on an empty queue fails exactly if they are and sleeps for good otherwise,
  `WideTimeoutFailsAtOnce` gives the input 2^32, and `PosQueue.Get` has the condition in both directions.
- The same header lets `pos_queue_put` return POS_EBUSY or POS_TIMEOUT. The code returns POS_OK or
  stops at an assertion. `OnlyFullPutAborts` says that it stops exactly on a full ring, and `FullPutAborts`
  gives the run for every queue.
- The header gives `pos_queue_inited` result codes; the code returns whether the pointer is set.

Two laws are this project's own and hold up to the width of the fields.

- The semaphore's conservation law, that tokens, net takes and takes in flight, less gives in flight,
  make up the initial count. The 32-bit atomic obeys it in a state exactly if the net takes fit
  (`TokensConserved`), and in every run exactly if the initial count, the native limit and the
  number of threads satisfy `Roomy` (`AtomicExactIff`), which can be checked before the first call. With a
  native limit of 2^31 - 1 this means at most two threads more than initial tokens (`PosixExactIff`), and
  `AtomicGoesWrong` gives a run for every other semaphore.
- The agreement of `OsMutex` with its native mutex. It holds exactly while the native depth counted so far
  is below 2^32 (`DepthAgreement`); `MirrorWraps` gives a run of 2^32 nested locks after which it does not,
  if the native mutex lets itself be locked so often.

Two more conditions are not checked by the code.

- `OsTask::Start` does not check whether the task was started. `RestartLeaks` says exactly when a second
  start keeps the stack pool safe; `PoolSafe` is about runs without one.
- The tick conversions multiply before they divide. `TicksToMsExactly` and `MsToTicksExactly` say exactly when the
  result is the true one; at 1000 ticks per second in 32 bits, 5000000 ticks become 705032 ms
  (`FiveThousandSeconds`).

## Model

| member | source | states |
|---|---|---|
| Bits.AndBit | include/poski/OsRing.h:92 | the function And is the bitwise conjunction, at every bit |
| Bits.PredecessorTest | include/poski/OsRing.h:41 | `!((n - 1) & n)` holds of a positive n exactly when n is a power of two |
| Bits.MaskOfWrapped | include/poski/OsRing.h:92-93 | masking a counter that wrapped at any width gives the residue of the counter that never wrapped |
| Bits.CapacityTestIsExact | include/poski/OsRing.h:41 | for every index width, the constructor's test holds exactly when masking is injective on every window of n wrapping counters, and exactly when every slot is reachable |
| Ring.Ring.Offset | include/poski/OsRing.h:75 | the slot of any index lies inside the allocation |
| Ring.SlotsDisjoint | include/poski/OsRing.h:92 | distinct counters of one window have byte-disjoint slots, across wraps |
| Ring.AllocationFitsInt | include/poski/OsRing.h:47 | the accepted capacities are at most 2^15 and `itemSize * itemCount` never overflows a 32-bit int |
| Ring.FreeSlotWrite | include/poski/OsRing.h:75 | writing anything into the slot at the write index leaves the decoded queue unchanged |
| Ring.PushAppends | include/poski/OsRing.h:72-77 | a push appends exactly the bytes given to the queue decoded from the buffer, and keeps the ring valid |
| Ring.PopRemoves | include/poski/OsRing.h:79-89 | the slot at the read index is the oldest item, and a pop removes it and nothing else |
| Ring.ObserversAgree | include/poski/OsRing.h:66-70 | empty and full, computed from wrapped indices, are emptiness and fullness of the decoded queue, which never exceeds the capacity |
| Ring.RingRefinesFifo | include/poski/OsRing.h:66-93 | over every run of pushes and pops the ring stops at the same operation, delivers the same items and ends with the same contents as a bounded FIFO |
| Ring.StopsExactly | include/poski/OsRing.h:72-83 | a run meets an assertion exactly if the pushes and pops before some operation have filled the queue and it is a push, or emptied it and it is a pop |
| Ring.IndicesCount | include/poski/OsRing.h:76-82 | after every run the indices are the numbers of pushes and pops modulo 2^16 |
| Ring.FifoConserves | include/poski/OsRing.h:72-83 | what came out, one item for each pop, followed by what is left, is what was there followed by what went in |
| OsRingClass.OsRing.constructor | include/poski/OsRing.h:39-48 | for accepted arguments a valid, empty ring of the given sizes |
| OsRingClass.OsRing.Size | include/poski/OsRing.h:66 | the 16-bit difference of the indices is the queue length |
| OsRingClass.OsRing.Empty | include/poski/OsRing.h:68 | true exactly when the decoded queue is empty |
| OsRingClass.OsRing.Full | include/poski/OsRing.h:70 | true exactly when the decoded queue has the capacity's length |
| OsRingClass.OsRing.PushBack | include/poski/OsRing.h:72-77 | in place, appends the caller's bytes to the decoded queue |
| OsRingClass.OsRing.PopFront | include/poski/OsRing.h:79-83 | in place, removes the oldest item |
| OsRingClass.OsRing.Front | include/poski/OsRing.h:85-89 | NULL exactly on an empty ring, otherwise the place of the oldest item's bytes |
| MonitorSafety.NextKeepsMutex | targets/posix/RingPthread.h:51-90 | every step of every thread keeps mutual exclusion at recursion depth one |
| MonitorSafety.OthersUnaffected | targets/posix/RingPthread.h:49-92 | what a thread relies on at its program point survives every step of every other thread |
| MonitorSafety.CopyInByte | include/poski/OsRing.h:75 | a byte copied in extends the copied prefix of the free slot and leaves the queue as it was |
| MonitorSafety.CopyOutByte | targets/posix/RingPthread.h:76 | a byte copied out extends the copied prefix of the oldest item |
| MonitorSafety.PublishEffect | include/poski/OsRing.h:76 | the step that advances the write index appends exactly the item being put, untorn |
| MonitorSafety.TakeEffect | targets/posix/RingPthread.h:70-79 | the step that pops removes exactly the item that was copied out, and its assertion holds |
| MonitorSafety.QuietEffect | targets/posix/RingPthread.h:49-92 | no other step changes the queue or the histories |
| MonitorSafety.NextKeepsSane | targets/posix/RingPthread.h:49-92 | every step keeps the ring valid and all threads' facts true |
| MonitorFifo.NextConserves | targets/posix/RingPthread.h:49-84 | every step keeps: items pushed are items popped followed by the decoded buffer |
| MonitorFifo.NextKeepsOrder | targets/posix/RingPthread.h:49-84 | every step keeps each producer's call order and each consumer's account of what it took |
| MonitorFifo.SignalKeepsAwake | targets/posix/RingPthread.h:53 | one signal keeps the bound between queued items and threads on their way to them |
| MonitorFifo.NextKeepsAwake | targets/posix/RingPthread.h:53-68 | so does every step, under barging, spurious wakeups and renewed waits |
| MonitorFifo.NextKeepsAnnounced | targets/posix/os_queue.cc:53-64 | every step keeps: callbacks begun plus items inserted but not announced are the items pushed |
| MonitorCalls.NextAccounts | targets/posix/os_queue.cc:53-72 | every step keeps: of the calls a thread began, each has returned, failed or is in its callback, or is the last and is carried out with the caller's item or the low 32 bits of the caller's waiting time |
| MonitorCalls.NextReturns | targets/posix/RingPthread.h:81-91 | what callers were told changes at the last step of a get or a size call only, by that call's result |
| MonitorRuns.NextKeepsInv | targets/posix/RingPthread.h:49-92 | every step keeps the whole invariant |
| MonitorRuns.EndToEnd | targets/posix/RingPthread.h:49-84 | after every run: items in, in push order, are items out, in pop order, followed by the decoded bytes; the items that the run's callers handed to each thread's puts are in, unchanged and in call order; each consumer received what it took |
| MonitorRuns.RunsContinue | targets/posix/RingPthread.h:49-92 | whatever step is possible after a run continues it, so the theorems about runs exclude none |
| MonitorRuns.EveryCallAccounted | targets/posix/os_queue.cc:53-72 | after every run, from the run's calls alone: no call vanishes, returns twice or is carried out with other arguments |
| MonitorRuns.RealTimeOrder | targets/posix/os_queue.cc:53-72 | each item is published and taken between the begin and the return of its call, and the histories only grow: calls take effect in an order that respects real time |
| MonitorRuns.NoLostWakeup | targets/posix/RingPthread.h:53-68 | in every reachable state with the mutex free and a getter asleep, at least as many getters are awake and coming as items are queued |
| MonitorRuns.DepthDiscipline | targets/posix/RingPthread.h:51-81 | in every reachable state the mutex is held exactly once at a wait, which frees it, and not at all in the caller's code or a callback |
| MonitorRuns.GetOutcome | targets/posix/RingPthread.h:57-84 | a get fails only with the low 32 bits of the waiting time of that very call zero and the queue empty; otherwise it returns the oldest item not taken before, as it was pushed |
| MonitorRuns.ToldOnlyTruth | targets/posix/RingPthread.h:57-92 | in every reachable state a step adds a POS_TIMEOUT only for a call whose time is zero in 32 bits while the queue is empty, an item only if it is the last one taken, a size only if it is the queue's length, and takes nothing back |
| MonitorRuns.GetDecision | targets/posix/RingPthread.h:60-79 | under the mutex a get waits exactly with nothing queued and its caller's time not zero, takes an item exactly when there is one, and `front` is never NULL after the size check |
| MonitorRuns.SizeOutcome | targets/posix/RingPthread.h:86-92 | size reports the length the queue has at that moment |
| MonitorRuns.OnlyFullPutAborts | include/poski/OsRing.h:74 | the only assertion that can fail is that of a push, and it fails exactly on a full ring |
| MonitorRuns.CallbackPerItem | targets/posix/os_queue.cc:53-64 | in every reachable state callbacks begun plus items inserted but not announced are the items pushed, so there are never more callbacks than items; with none installed no thread is ever in one |
| MonitorEnds.StepUsesMeasure | targets/posix/RingPthread.h:49-92 | every step other than a new call or a spurious wakeup lowers one rank over all threads |
| MonitorEnds.InternalRunsEnd | targets/posix/RingPthread.h:49-92 | every run of such steps is finite, with a bound known at its start |
| MonitorEnds.ComesToRest | targets/posix/RingPthread.h:49-92 | from every reachable state such steps lead to a state in which no thread can move |
| MonitorEnds.BlockedExactly | targets/posix/RingPthread.h:49-92 | in every reachable state a thread in a call can move exactly unless it waits for a held mutex or for a wakeup, and a thread in its own code or a callback can begin any call |
| MonitorEnds.WakesExactly | targets/posix/RingPthread.h:66 | a step takes out of the wait exactly the sleepers that wake up spuriously or that a signal unblocks |
| MonitorEnds.RestIsGood | targets/posix/RingPthread.h:49-92 | there, unless a put met a full ring, the mutex is free, every thread is in its own code or asleep in a get, and nobody sleeps or the queue is empty |
| MonitorEnds.RestDelivers | targets/posix/os_queue.cc:53-72 | there every item that callers handed to a put is in the history in call order, every item taken was returned, every call has returned but a get asleep and the puts in whose callbacks it sleeps, every item had its callback, and with a sleeper left everything pushed was delivered |
| MonitorSolo.SoloPutIsPut | targets/posix/RingPthread.h:49-55 | any uninterrupted put of the step system, from its call on, appends the caller's item, wakes a sleeper if there is one and frees the mutex: the contract of the class method |
| MonitorSolo.SoloGetIsGet | targets/posix/RingPthread.h:57-84 | any uninterrupted get of the step system, from its call on, has the outcome the class method has for the caller's waiting time when nobody else acts, and changes no other thread |
| MonitorSolo.SpuriousWakeup | targets/posix/RingPthread.h:64-67 | a sleeper that wakes for no reason goes back to sleep with everything as before if nothing is queued, and otherwise returns with the oldest item |
| MonitorSolo.SoloSizeIsSize | targets/posix/RingPthread.h:86-92 | an uninterrupted size call returns the queue's length, changes nothing else and frees the mutex |
| MonitorSolo.LoneGet | targets/posix/os_queue.cc:66-72 | a get alone on an empty queue fails exactly if the low 32 bits of its waiting time are zero, and otherwise sleeps for good |
| MonitorSolo.WideTimeoutFailsAtOnce | targets/posix/os_queue.cc:69 | the nonzero waiting time 2^32 fails at once |
| MonitorSolo.FullPutAborts | include/poski/OsRing.h:74 | for every queue, as many puts as its capacity and one more reach the failing assertion |
| PosixQueue.RingPthread.constructor | targets/posix/RingPthread.h:35-41 | an empty queue with the mutex free and nobody waiting |
| PosixQueue.RingPthread.Signal | targets/posix/RingPthread.h:53 | wakes at least one sleeper if there is any, and nobody else |
| PosixQueue.RingPthread.Put | targets/posix/RingPthread.h:49-55 | appends the caller's bytes, wakes a sleeper if there is any, leaves the mutex free |
| PosixQueue.RingPthread.Wait | targets/posix/RingPthread.h:66 | frees the mutex while the others act and comes back holding it once |
| PosixQueue.RingPthread.AwaitItem | targets/posix/RingPthread.h:62-68 | waits through exactly the moments at which the queue is empty |
| PosixQueue.RingPthread.TakeFront | targets/posix/RingPthread.h:70-79 | copies out and removes the oldest item exactly when there is one |
| PosixQueue.RingPthread.Get | targets/posix/RingPthread.h:57-84 | delivers the item that is oldest when the waits end, or gives up at once with `tmo` zero, or is still waiting; leaves the mutex free, loses no other waiter and writes nothing beyond the item |
| PosixQueue.RingPthread.Size | targets/posix/RingPthread.h:86-92 | the queue length |
| OsQueue.PosQueue.Init | targets/posix/os_queue.cc:27-34 | a fresh empty queue of the given sizes without a callback |
| OsQueue.PosQueue.IsEmpty | targets/posix/os_queue.cc:42-46 | true exactly when the decoded queue is empty |
| OsQueue.PosQueue.Put | targets/posix/os_queue.cc:53-64 | POS_OK, the message appended, and the callback, if one is installed, run once: it finds the message in the queue and the mutex free |
| OsQueue.PosQueue.Get | targets/posix/os_queue.cc:66-72 | POS_OK exactly when an item was there when the waits ended, POS_TIMEOUT exactly when none was and the low 32 bits of the waiting time are zero; nothing is written beyond the message |
| Mutex.OsMutex.constructor | include/poski/OsMutex.h:31-40 | mirror and native mutex agree, locked once or free as asked |
| Mutex.OsMutex.Lock | include/poski/OsMutex.h:55-61 | mirror and native mutex still agree, one deeper exactly on success |
| Mutex.OsMutex.Unlock | include/poski/OsMutex.h:63-73 | mirror and native mutex still agree, one shallower exactly on success, unchanged after a failed unlock |
| Mutex.OsMutex.Destroy | include/poski/OsMutex.h:43-49 | performs exactly as many unlocks as the mirror says, none failing, and frees the mutex exactly if the depth was below 2^32 |
| Mutex.NextKeepsInv | include/poski/OsMutex.h:55-73 | every read, write or native step of every thread keeps the agreement of mirror and native depth |
| Mutex.SoloLockIsLock | include/poski/OsMutex.h:55-61 | any uninterrupted Lock, in any state of the invariant, changes nothing if the native call fails; otherwise the thread owns the mutex one deeper, the mirror counts it, and nothing else changes |
| Mutex.SoloUnlockIsUnlock | include/poski/OsMutex.h:63-73 | any uninterrupted Unlock by the owner with a positive mirror changes nothing if the native call fails; otherwise the mutex is one shallower, free exactly if the depth was one, the mirror counts it, and nothing else changes |
| Mutex.SoloExists | include/poski/OsMutex.h:55-73 | every such call can be run to its end, with and without a failure, in at most six steps |
| Mutex.DepthAgreement | include/poski/OsMutex.h:55-73 | in every reachable state the mirror is the native depth, less one exactly between a native call and its write, if and only if that is below 2^32; a free mutex has mirror zero |
| Mutex.MirrorWraps | include/poski/OsMutex.h:58 | 2^32 nested locks leave a held mutex with mirror zero |
| Mutex.NoRaceNoLostUpdate | include/poski/OsMutex.h:65 | only the owner is ever about to touch the plain field, two threads never are, and no update is lost |
| Mutex.AssertionExact | include/poski/OsMutex.h:64 | the assertion fails exactly when the owner's native depth is a multiple of 2^32 |
| Mutex.QuietIsValid | include/poski/OsMutex.h:43-49 | between calls the object is in the state the destructor requires |
| Semaphore.OsSemaphore.constructor | include/poski/OsSemaphore.h:32-41 | tokens and net takes make up the initial count, with one taken or none |
| Semaphore.OsSemaphore.Take | include/poski/OsSemaphore.h:56-62 | one token fewer exactly on success, and tokens and net takes still make up the initial count |
| Semaphore.OsSemaphore.Give | include/poski/OsSemaphore.h:64-70 | one token more exactly below the native limit, and tokens and net takes still make up the initial count |
| Semaphore.OsSemaphore.Destroy | include/poski/OsSemaphore.h:44-50 | ends with the larger of the initial count and the tokens there before; says exactly when its assertion would fail |
| Semaphore.NextKeepsInv | include/poski/OsSemaphore.h:56-70 | every step of every thread keeps the conservation law |
| Semaphore.SoloTakeIsTake | include/poski/OsSemaphore.h:56-62 | an uninterrupted Take takes exactly one token and counts it, or changes nothing if it fails |
| Semaphore.SoloGiveIsGive | include/poski/OsSemaphore.h:64-70 | an uninterrupted Give gives exactly one token and counts it, or changes nothing if it fails or the native limit is reached |
| Semaphore.TokensConserved | include/poski/OsSemaphore.h:32-70 | in every reachable state tokens, net takes and takes in flight, less gives in flight, make up the initial count, modulo 2^32 and exactly if and only if the net takes fit the atomic |
| SemaphoreRange.NetBounded | include/poski/OsSemaphore.h:56-70 | how far the net takes can go in any run, from the initial count, the limit and the number of threads |
| SemaphoreRange.AtomicExactIff | include/poski/OsSemaphore.h:76 | the 32-bit atomic obeys the law in every run if and only if a condition on initial count, limit and threads holds |
| SemaphoreRange.AtomicGoesWrong | include/poski/OsSemaphore.h:76 | for every semaphore that fails the condition, a run after which the law does not hold |
| SemaphoreRange.PosixExactIff | include/poski/OsSemaphore.h:76 | with a native limit of 2^31 - 1 the condition is at most two threads more than initial tokens |
| Semaphore.QuietIsValid | include/poski/OsSemaphore.h:44-50 | between calls the object is in the state the destructor requires |
| StackPool.OsTask.PosTaskInit | targets/zephyr/os_task.c:35-69 | the first-fit loop takes the lowest free stack, and a failed creation is rolled back |
| StackPool.OsTask.PosTaskRemove | targets/zephyr/os_task.c:91-104 | the search frees exactly the stack the task points at |
| StackPool.OsTask.Start | include/poski/OsTask.h:35-41 | pool, task and result are those of the specification |
| StackPool.OsTask.Remove | include/poski/OsTask.h:43-50 | pool, task and result are those of the specification; a task not started changes nothing |
| StackPool.StartExactly | targets/zephyr/os_task.c:38-68 | exactly when a start is refused as invalid, fails for lack of memory, fails with the creation or succeeds; only success marks a stack, the lowest free one alone, and sets the guard |
| StackPool.RemoveExactly | targets/zephyr/os_task.c:91-104 | a remove is refused exactly without the guard; otherwise it clears the guard and the mark of the stack at the task's address, if the pool has one, and no other |
| StackPool.NextKeepsInv | include/poski/OsTask.h:35-50 | starts of tasks not started, failed starts, and any removes keep the pool safe |
| StackPool.PoolSafe | targets/zephyr/os_task.c:42-104 | after every run started tasks own distinct stacks of the pool, a stack is marked used exactly when a started task owns it, and the marks count successful starts less successful removes |
| StackPool.OwnershipExact | include/poski/OsTask.h:35-50 | which task owns which stack after a start or a remove, exactly: a successful start adds the lowest stack without an owner, a remove takes the task's stack away, nothing else changes |
| StackPool.NoMemExactly | targets/zephyr/os_task.c:42-53 | for admissible sizes POS_ENOMEM exactly when every stack has an owner, otherwise the lowest stack without one |
| StackPool.StartThenRemove | targets/zephyr/os_task.c:55-101 | a start followed by a remove restores the pool exactly |
| StackPool.RestartLeaks | include/poski/OsTask.h:35-41 | starting a started task keeps the pool safe exactly when the call is refused before a stack is chosen |
| Time.NoWrap | targets/freertos/poski/osal/os_port.h:119-127 | if ms times rate fits the width, neither conversion wraps on the round trip |
| Time.TicksToMsExactly | targets/freertos/poski/osal/os_port.h:124-127 | for any tick count the product loses a multiple of 2^width, the result is the rest in milliseconds rounded down, and it is the true time exactly if the product fits or the time is below a millisecond |
| Time.MsToTicksExactly | targets/freertos/poski/osal/os_port.h:119-122 | the same for any time in milliseconds |
| Time.RoundTripLoss | targets/freertos/poski/osal/os_port.h:119-127 | and then rate times the loss is between 0 and rate + 998 |
| Time.RoundTripGoodExactly | targets/freertos/poski/osal/os_port.h:119-127 | that bound holds exactly when the product fits |
| Time.RoundTripExact | targets/freertos/poski/osal/os_port.h:119-127 | nothing is lost when 1000 divides the rate |
| Time.IdentityExactly | targets/freertos/poski/osal/os_port.h:119-122 | at 1000 ticks per second in 32 bits the conversion is the identity exactly up to 4294967 ms |
| Time.SleepMs | targets/posix/os_task.c:128-137 | over any interruptions time slept plus time asked for next is the whole duration, every request is well-formed and is the remainder of the one before, a completed sleep slept it all, and with progress it does not go on for ever |
| Time.InterruptionsBounded | targets/posix/os_task.c:134-136 | with progress there are at most as many interruptions as nanoseconds |

## Left out

- FreeRTOS, RT-Thread and Zephyr queues, mutexes, semaphores and timers: they pass through to kernels that are not part of this model.
- `pthread_cancel` of a thread inside put or get (targets/posix/os_task.c:99): assumed not to happen; `pthread_cond_wait` is a cancellation point and no cleanup handler is installed.
- A full ring beyond the assertion, and builds with assertions compiled out.
- Narrowing of `size_t` to `uint16_t` in `pos_queue_init`: `PosQueue.Init` requires sizes that fit.
- `pos_queue_set_signal_cb` and `pos_queue_deinit` while other calls are under way: in the step system the callback is fixed before the run and the queue is never torn down.
- The body of a signal callback: in the step system it may make any calls on the queue; its other effects are not modelled.
- OsQueue.PosQueue.Put: the callback is recorded with what it finds and makes no calls on the queue, so the new contents are stated for such a callback; a callback that puts or gets is in the step system.
- PosixQueue.RingPthread.Wait: what the other threads do during the wait is a parameter, and they do not contend for the mutex; all interleavings are in the step system.
- PosixQueue.RingPthread.AwaitItem: the same parameter, one list of operations for each wait.
- PosixQueue.RingPthread.Get: starts when the mutex is free, with the same parameter; `MonitorSolo.SoloGetIsGet` connects it to the step system for a get during which nobody else acts.
- PosixQueue.RingPthread.Put: starts when the mutex is free; `MonitorSolo.SoloPutIsPut` connects it to the step system.
- OsQueue.PosQueue.Get: as `PosixQueue.RingPthread.Get`.
- `OsMutex::Unlock` by a thread that does not own the mutex: excluded by its contract.
- Durations of timed locks and takes: a native call may fail at any moment, for any reason, without effect.
- Allocation failure, C++ object lifetime and weak memory.
- Timers, floating-point time on POSIX, error-code mapping, panic, schedulers, the thread creation of targets/posix/os_task.c and the task count.
- Tick types narrower than `int`, where C promotes before multiplying.
- Everything of a Zephyr thread but its stack address and whether its creation succeeded.
