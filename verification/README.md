# ThreadPool bookkeeping, modelled in Dafny

A model of the sequential core of a pthread thread pool (`ThreadPool<T>` over
`TaskQueue<T>`). It covers two parts:

- **the task queue**: a FIFO of `Task` records, each a callback plus an argument pointer;
- **the pool's bookkeeping**: the counters `m_minNum`, `m_maxNum`, `m_busyNum`,
  `m_liveNum`, `m_exitNum` and `m_shutdown`, and the fixed-size slot table
  `m_threadIDs`, where 0 marks a free slot.

Threads, locks and condition variables are treated as given. Each step is
modelled as one atomic action under the pool lock. Which thread takes which
step, and when, is left to the caller of the model.

Files and modules:

- `TaskQueue.dfy`, module `TaskQueues`. It holds `Task`, the null pointer `Ptr`, and the queue
  as a value (`Enqueue`, `Dequeue`), with the FIFO lemmas. The class
  `TaskQueue` has a `seq` field that its methods update in place.
- `SlotTable.dfy`, module `SlotTables`. It holds the two scans over the slot table: the
  manager's fill of free slots (`FillFree`) and the clearing scan of
  `threadExit` (`ClearSlot`), with lemmas that characterise them slot by slot.
- `PoolSpec.dfy`, module `PoolSpec`. It holds the pool state as a value (`PoolState`), one
  function per step, the invariants the steps keep, and the two findings below.
- `ThreadPool.dfy`, module `ThreadPools`. It holds the class `Pool`. Its fields are updated in
  place, and each method is proved to produce exactly the state the matching
  `PoolSpec` function gives. The slot table is an `array<nat>`. The scale-up
  loop and the `threadExit` scan are `while` loops with invariants.

Modelling choices:

- **Thread ids.** A thread id is a `nat`, and 0 is a free slot.
  - Creating a thread means a slot receives a fresh nonzero id. These ids
    are parameters: `workerIds` for the constructor, `newIds` for a manager
    tick.
  - `pthread_self()` is the parameter `self` of the worker steps and of
    `ThreadExit`.
  - A worker that calls `threadExit` is reported as `exited == true` (wake
    path) or `Exited` (shutdown path). The `pthread_exit` that ends the
    thread is not modelled.
- **Quirks kept as written.** The model follows the code, including these quirks:
  - The busy count rises by 2 per dequeued task (ThreadPool.h:204 and :208)
    and falls by 1 (ThreadPool.h:221). The comment at ThreadPool.h:208 calls
    that increment the "+1", and there is a single decrement at :221, so one
    increment per task was meant.
  - The constructor starts `min` workers (ThreadPool.h:97-102) but leaves
    `m_liveNum` at 0 (ThreadPool.h:62). A pool that counted its workers
    would set `m_liveNum` to `min`.
  - A woken worker consumes one unit of the exit quota even when it stays
    (ThreadPool.h:185-186).
  - The constructor checks neither `min` nor `max` (ThreadPool.h:57-65).
  - `Pool` and the `PoolSpec` step functions keep the code's behaviour. The
    findings add corrected definitions next to them.
- **Constructor preconditions.** The constructor requires `0 <= max` and
  `min <= max`.
  - With a negative `max`, `new pthread_t[max]` throws.
  - With `min > max`, the worker-creation loop writes past the end of the
    table.
  - A negative `min` is allowed: the loop then starts no worker.

## Model

| member | source | states |
|---|---|---|
| `TaskQueues.EmptyTask` | TaskQueue.h:12 | the default task has a null callback and a null argument |
| `TaskQueues.Enqueue` | TaskQueue.h:53 | a push makes the queue one longer, with the new task last and every earlier task unchanged and in place |
| `TaskQueues.Dequeue` | TaskQueue.h:64-76 | on an empty queue: the empty task and an empty queue; otherwise the front task and a tail that together make up the old queue |
| `TaskQueues.EnqueueKeepsFront` | TaskQueue.h:50-76 | a push onto an empty queue makes the pushed task the next one out; onto a non-empty queue it leaves the front unchanged and goes behind the rest |
| `TaskQueues.EnqueueAllAppends` | TaskQueue.h:50-54 | pushing t1..tn one after another appends exactly t1..tn |
| `TaskQueues.DequeueNTakesPrefix` | TaskQueue.h:64-76 | n pops, with n at most the length, return the first n tasks in order and leave the remaining suffix |
| `TaskQueues.DequeueNPastEnd` | TaskQueue.h:64-76 | pops past the end never block: each extra pop yields the empty task and the queue stays empty |
| `TaskQueues.FifoOrder` | TaskQueue.h:50-76 | tasks pushed as t1..tn behind a queue q come out as q then t1..tn, leaving the queue empty |
| `TaskQueues.TaskQueue.constructor` | TaskQueue.h:26 | a new queue is empty |
| `TaskQueues.TaskQueue.AddTask` | TaskQueue.h:50-54 | the queue becomes its old contents with the task appended at the back |
| `TaskQueues.TaskQueue.AddTaskFrom` | TaskQueue.h:56-61 | the same effect as `AddTask(Task(f, arg))` |
| `TaskQueues.TaskQueue.GetTask` | TaskQueue.h:64-76 | on a non-empty queue: returns the old front and leaves exactly the old tail, one shorter; on an empty queue: returns the empty task and the queue stays empty |
| `TaskQueues.TaskQueue.TaskSize` | TaskQueue.h:37-40 | the result is the number of queued tasks |
| `SlotTables.FillFree` | ThreadPool.h:251-259 | the fill scan keeps the table's length |
| `SlotTables.FillFreeAt` | ThreadPool.h:251-259 | slot i receives an id exactly when it is free and fewer than k free slots precede it; the id is ids[number of free slots before i]; every other slot keeps its value |
| `SlotTables.FillFreeKeepsOccupied` | ThreadPool.h:253 | every occupied slot keeps its id |
| `SlotTables.FillFreeCount` | ThreadPool.h:251-259 | with nonzero ids, the scan occupies exactly min(k, free slots) more slots |
| `SlotTables.FirstIndex` | ThreadPool.h:282-291 | returns the lowest index holding the id |
| `SlotTables.ClearSlotAbsent` | ThreadPool.h:282-291 | when no slot holds the id, the table is unchanged |
| `SlotTables.ClearSlotFirst` | ThreadPool.h:282-291 | when slot i is the first holding the id, exactly slot i becomes 0 |
| `SlotTables.ClearSlotSpec` | ThreadPool.h:282-291 | `threadExit` zeroes the lowest-index slot equal to the caller's id and no other slot; with no match the table is unchanged |
| `SlotTables.ClearSlotFreesOne` | ThreadPool.h:282-291 | clearing a registered nonzero id keeps the length and frees exactly one slot |
| `PoolSpec.Init` | ThreadPool.h:57-104 | the constructed state satisfies the invariant: a table of `max` slots, exit quota in [0, 2], live count at most `max` |
| `PoolSpec.SubmitEffect` | ThreadPool.h:137-146 | after shutdown, `addTask` changes nothing; otherwise the queue grows by exactly that task at the back and nothing else changes |
| `PoolSpec.ScaleUpEffect` | ThreadPool.h:246-259 | scale-up adds exactly min(2, max - live, free slots) threads; the live count rises by that number and stays at most `max`; the lowest free slots get the fresh ids in order; occupied slots and all other counters are untouched |
| `PoolSpec.ManagerTickEffect` | ThreadPool.h:236-273 | a tick changes nothing unless a decision fires; both decisions use the snapshot; scale-down sets the quota to exactly 2 and changes neither the live count nor the table; scale-up changes only the live count and the table |
| `PoolSpec.WakeRule` | ThreadPool.h:183-192 | a positive quota is always consumed. The worker exits exactly when the quota is positive and the live count is above the minimum; only then does the live count drop by one and its slot get cleared. This path never takes the live count below the minimum |
| `PoolSpec.TakeTaskRule` | ThreadPool.h:196-208 | out of the wait loop, a worker exits exactly when shutdown is set: nothing is dequeued, its slot is cleared and the live count is kept. Otherwise it runs the old front task, the queue loses exactly that task, and the busy count rises by 2 |
| `PoolSpec.StepsKeepInv` | ThreadPool.h:137-268 | submit, a manager tick, a wake, leaving the wait loop and finishing a task each keep the invariant |
| `PoolSpec.ScaleUpKeepsSteady` | ThreadPool.h:251-259 | when live count equals occupied slots and lies between the bounds, scale-up keeps that |
| `PoolSpec.WakeKeepsSteady` | ThreadPool.h:183-192 | a wake of a registered worker keeps live count equal to occupied slots and at least the minimum |
| `PoolSpec.StepsKeepSteady` | ThreadPool.h:137-268 | the steady state (min <= live <= max, live equal to occupied slots) survives submit, a manager tick and finishing a task for every steady pool; it survives a wake of any registered nonzero worker and a non-shutdown dequeue; only a shutdown exit breaks it |
| `PoolSpec.ShutdownExitLeavesLiveNum` | ThreadPool.h:196-200 | a shutdown exit frees the worker's slot but keeps `m_liveNum`, so one fewer slot is occupied than the live count says |
| `PoolSpec.BusyDriftAsWritten` | ThreadPool.h:203-221 | after n tasks are taken and finished in turn, the busy count is n higher than before and n tasks have left the queue |
| `PoolSpec.BusyDriftExceedsLive` | ThreadPool.h:203-221 | one live worker, one of two slots occupied, two tasks queued: once both have run to completion, the busy count is 2, above the live count of 1 |
| `PoolSpec.BusyDriftBlocksScaleDown` | ThreadPool.h:264 | once as many tasks have completed as half the live count, the scale-down test can no longer fire |
| `PoolSpec.CompleteTasksKeepsWorkers` | ThreadPool.h:203-221 | running tasks changes neither the live count nor the minimum |
| `PoolSpec.BusyDriftExample` | ThreadPool.h:203-221 | four live workers, minimum two, two tasks run to completion: as written, busy is 2 and scale-down stays off; corrected, busy is 0 and scale-down fires |
| `PoolSpec.BusyBalancedCorrected` | ThreadPool.h:203-221 | with the single increment, the busy count returns to its start after any number of completed tasks |
| `PoolSpec.InitNotSteady` | ThreadPool.h:62 | after construction with min >= 1, `min` slots are occupied while `m_liveNum` is 0, so the steady state does not hold |
| `PoolSpec.InitCorrectedSteady` | ThreadPool.h:97-102 | counting the started workers makes the constructed state steady, with the workers in slots 0..min-1 |
| `ThreadPools.Pool.constructor` | ThreadPool.h:57-104 | counters are 0 and shutdown is false; the `max`-slot table holds the started workers' ids in slots 0..min-1 and 0 in the rest (everything is 0 after the zeroing at line 84); the queue is empty; `m_liveNum` stays 0 |
| `ThreadPools.Pool.AddTask` | ThreadPool.h:137-146 | with shutdown set, the queue is unchanged; otherwise it grows by exactly that task at the back. The state equals `Submit` |
| `ThreadPools.Pool.GetBusyNum` | ThreadPool.h:149-155 | returns the current busy count |
| `ThreadPools.Pool.GetAliveNum` | ThreadPool.h:158-164 | returns the current live count |
| `ThreadPools.Pool.ScaleUp` | ThreadPool.h:248-259 | the in-place loop leaves exactly the state `PoolSpec.ScaleUp` gives, so `ScaleUpEffect` applies to it |
| `ThreadPools.Pool.ScaleDown` | ThreadPool.h:266-268 | the exit quota becomes 2 and nothing else changes |
| `ThreadPools.Pool.ManagerTick` | ThreadPool.h:236-273 | one manager iteration leaves exactly the state `PoolSpec.ManagerTick` gives, with both tests on the snapshot |
| `ThreadPools.Pool.ThreadExit` | ThreadPool.h:279-291 | the scan leaves the table equal to `ClearSlot` of the old table (see `ClearSlotSpec`); all counters are unchanged |
| `ThreadPools.Pool.WaitCondition` | ThreadPool.h:176 | the worker keeps waiting exactly when the queue is empty and shutdown is not set |
| `ThreadPools.Pool.WorkerWake` | ThreadPool.h:183-192 | the on-wake step leaves exactly the state and exit flag `Wake` gives (see `WakeRule`) |
| `ThreadPools.Pool.WorkerTakeTask` | ThreadPool.h:196-208 | leaving the wait loop, which requires a queued task or shutdown, gives exactly the state and outcome of `TakeTask` (see `TakeTaskRule`) |
| `ThreadPools.Pool.WorkerFinishTask` | ThreadPool.h:220-222 | the busy count drops by one and nothing else changes |

## Left out

- Locking (`Locker.h`, `LockGuard`, the queue's own lock). Every step is one atomic action instead.
- Races the sequential model cannot express:
  - the unlocked read of `m_shutdown` in `addTask` (ThreadPool.h:139);
  - the unlocked queue-size read in `taskSize`;
  - the `++m_busyNum` outside the lock (ThreadPool.h:208);
  - `threadExit` running after the lock is released (ThreadPool.h:189-190).
- Thread creation and termination (`pthread_create`, `pthread_exit`, `pthread_join`, `pthread_self`), and the manager's own id `m_managerID`.
  - A created thread is a slot receiving a fresh nonzero id from a parameter.
  - `pthread_self` is a parameter.
  - Termination is an exit flag or an `Exited` outcome.
- The condition variable `m_notEmpty` (wait, signal, the two signals after a scale-down decision) and `sleep(3)`. These are scheduling and time. A signal is modelled as "one worker may take the wake step".
- The outer `while (true)` of `worker` and the `while (!m_shutdown)` guard of `manager`. These are scheduling: each loop body is a step the caller may take.
- Destructor teardown (ThreadPool.h:115-134). It releases resources and signals workers, and joins no worker.
- Allocation-failure branches (ThreadPool.h:69-81, ThreadPool.h:108-111). `new` throws rather than returning null, so these branches are dead. The failure of `pthread_cond_init` (ThreadPool.h:87-91) is left out with them.
- Running the callback and `delete task.arg`. Both are foreign calls or manual memory.
- All `cout` tracing.
- The bound `busy <= live` is not stated as an invariant. The step model keeps no per-worker busy state: `TakeTask` and `FinishTask` may be called in any order, so the bound cannot be stated even for `TakeTaskCorrected`. As written it is also false: `BusyDriftExceedsLive` exhibits a state with busy above live.
- 32-bit `int` overflow of the counters, including of `busyCnt << 1`. Counters are unbounded integers, and `busyCnt << 1` is `busyCnt * 2`.
- The size of the zeroing `memset` (`sizeof(m_threadIDs) * max`). It is taken to clear the whole table, which holds where a pointer and a `pthread_t` have the same width.

## Findings

| source | as written | input that shows it | evidently intended | confidence | as-written member | corrected member |
|---|---|---|---|---|---|---|
| ThreadPool.h:204-221 | the busy count is incremented under the lock (line 204) and again after unlocking (line 208), but decremented once (line 221) | four live workers, minimum two, two tasks queued: after both finish the busy count is 2 with nobody at work, and `2*2 < 4` keeps scale-down off | one increment per dequeued task, so the count returns to its start once tasks finish | not executed | `PoolSpec.BusyDriftAsWritten` | `PoolSpec.BusyBalancedCorrected` |
| ThreadPool.h:62 | `m_liveNum` stays 0 while the constructor starts `min` workers (lines 97-102) | `ThreadPool(2, 4)`: slots 0 and 1 are occupied and `m_liveNum == 0`, below the minimum | `m_liveNum == min` after construction | not executed | `PoolSpec.InitNotSteady` | `PoolSpec.InitCorrectedSteady` |

`Pool` and the `PoolSpec` step functions model the code as written. The corrected definitions, `TakeTaskCorrected` and `InitCorrected`, are given beside them with their intended properties proved.
`StepsKeepSteady` then shows that the corrected construction's steady state survives every later step except a shutdown exit.
