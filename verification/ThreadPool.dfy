/** The pool object of ThreadPool.h: its counters and slot table are
    fields updated in place, and each bookkeeping step of the constructor,
    `addTask`, `worker`, `manager` and `threadExit` is a method proved to
    produce exactly the state the matching function of PoolSpec gives. */
module ThreadPools {
  import opened TaskQueues
  import opened SlotTables
  import opened PoolSpec

  class Pool<T> {
    const minNum: int              // m_minNum
    const maxNum: int              // m_maxNum
    var busyNum: int               // m_busyNum
    var liveNum: int               // m_liveNum
    var exitNum: int               // m_exitNum
    var shutdown: bool             // m_shutdown
    const threadIDs: array<nat>    // m_threadIDs, 0 marks a free slot
    const taskQ: TaskQueue<T>      // m_taskQ

    /** The pool's bookkeeping as a value. */
    ghost function State(): PoolState<T>
      reads this, threadIDs, taskQ
    {
      PoolState(minNum, maxNum, busyNum, liveNum, exitNum, shutdown, threadIDs[..], taskQ.items)
    }

    ghost predicate Valid()
      reads this, threadIDs, taskQ
    {
      threadIDs.Length == maxNum && Inv(State())
    }

    /** `ThreadPool(min, max)`: counters cleared, the table allocated with
        `max` slots and zeroed, then one worker started in each of the first
        `min` slots (their ids are `workerIds`). */
    constructor (min: int, max: int, workerIds: seq<nat>)
      requires 0 <= max && min <= max && |workerIds| == StartCount(min)
      ensures Valid() && State() == Init(min, max, workerIds)
      ensures liveNum == 0 && busyNum == 0 && exitNum == 0 && !shutdown && taskQ.items == []
      ensures threadIDs.Length == max
      ensures forall i :: 0 <= i < |workerIds| ==> threadIDs[i] == workerIds[i]
      ensures forall i :: |workerIds| <= i < max ==> threadIDs[i] == 0
      ensures fresh(threadIDs) && fresh(taskQ)
    {
      minNum := min;
      maxNum := max;
      liveNum := 0;
      busyNum := 0;
      exitNum := 0;
      shutdown := false;
      taskQ := new TaskQueue();
      threadIDs := new nat[max](_ => 0);
      new;
      var i := 0;
      while i < min
        modifies threadIDs
        invariant 0 <= i <= |workerIds|
        invariant threadIDs[..] == workerIds[..i] + seq(max - i, _ => 0)
      {
        threadIDs[i] := workerIds[i];
        i := i + 1;
        assert threadIDs[..] == workerIds[..i] + seq(max - i, _ => 0);
      }
      assert workerIds[..i] == workerIds;
    }

    /** `addTask(task)`: dropped once shutdown is set, otherwise pushed. */
    method AddTask(task: Task<T>)
      requires Valid()
      modifies taskQ
      ensures Valid() && State() == Submit(old(State()), task)
      ensures old(shutdown) ==> taskQ.items == old(taskQ.items)
      ensures !old(shutdown) ==> taskQ.items == old(taskQ.items) + [task]
    {
      if shutdown {
        return;
      }
      taskQ.AddTask(task);
    }

    /** `getBusyNum()`: a snapshot of the busy count. */
    method GetBusyNum() returns (n: int)
      ensures n == busyNum
    {
      n := busyNum;
    }

    /** `getAliveNum()`: a snapshot of the live count. */
    method GetAliveNum() returns (n: int)
      ensures n == liveNum
    {
      n := liveNum;
    }

    /** The manager's scale-up loop: walk the table in index order and start
        a worker (id `newIds[cnt]`) in each free slot, until two have been
        started or the live count reaches the maximum. */
    method ScaleUp(newIds: seq<nat>)
      requires Valid() && |newIds| >= AddThreadPerNum
      modifies this, threadIDs
      ensures Valid() && State() == PoolSpec.ScaleUp(old(State()), newIds)
    {
      ghost var st := State();
      ghost var s0 := threadIDs[..];
      ghost var k := ScaleUpBudget(liveNum, maxNum);
      var cnt := 0;
      var i := 0;
      while i < maxNum && cnt < AddThreadPerNum && liveNum < maxNum
        invariant 0 <= i <= maxNum
        invariant cnt == Min(k, CountFree(s0[..i]))
        invariant liveNum == old(liveNum) + cnt
        invariant busyNum == old(busyNum) && exitNum == old(exitNum) && shutdown == old(shutdown)
        invariant threadIDs[..] == FillFree(s0[..i], newIds, k) + s0[i..]
      {
        FillLoopStep(s0, i, newIds, k, cnt, threadIDs[..]);
        if threadIDs[i] == 0 {
          threadIDs[i] := newIds[cnt];
          cnt := cnt + 1;
          liveNum := liveNum + 1;
        }
        i := i + 1;
      }
      ScanFinished(s0, i, newIds, k, cnt);
      assert State() == st.(slots := threadIDs[..], liveNum := liveNum);
    }

    /** The manager's scale-down action: set the exit quota. */
    method ScaleDown()
      requires Valid()
      modifies this
      ensures Valid() && State() == PoolSpec.ScaleDown(old(State()))
    {
      exitNum := AddThreadPerNum;
    }

    /** One iteration of `manager` after its sleep: snapshot the counters and
        the queue length, then decide on that snapshot. */
    method ManagerTick(newIds: seq<nat>)
      requires Valid() && |newIds| >= AddThreadPerNum
      modifies this, threadIDs
      ensures Valid() && State() == PoolSpec.ManagerTick(old(State()), newIds)
    {
      var busyCnt := busyNum;
      var aliveCnt := liveNum;
      var taskCnt := taskQ.TaskSize();
      if ShouldScaleUp(taskCnt, aliveCnt, maxNum) {
        ScaleUp(newIds);
      }
      if ShouldScaleDown(busyCnt, aliveCnt, minNum) {
        ScaleDown();
      }
    }

    /** `threadExit()` for the thread `self`: zero the first slot holding it. */
    method ThreadExit(self: nat)
      requires Valid()
      modifies threadIDs
      ensures Valid() && State() == old(State()).(slots := ClearSlot(old(threadIDs[..]), self))
    {
      var i := 0;
      while i < maxNum
        invariant 0 <= i <= maxNum
        invariant threadIDs[..] == old(threadIDs[..])
        invariant forall j :: 0 <= j < i ==> threadIDs[j] != self
      {
        if threadIDs[i] == self {
          ClearSlotFirst(threadIDs[..], self, i);
          threadIDs[i] := 0;
          return;
        }
        i := i + 1;
      }
      ClearSlotAbsent(threadIDs[..], self);
    }

    /** The wait loop's test in `worker`: nothing queued and no shutdown. */
    predicate WaitCondition()
      reads this, taskQ
      ensures WaitCondition() <==> PoolSpec.MustWait(State())
    {
      |taskQ.items| == 0 && !shutdown
    }

    /** What worker `self` does on each wake inside the wait loop. */
    method WorkerWake(self: nat) returns (exited: bool)
      requires Valid()
      modifies this, threadIDs
      ensures Valid() && Wake(old(State()), self) == WakeResult(State(), exited)
    {
      exited := false;
      if exitNum > 0 {
        exitNum := exitNum - 1;
        if liveNum > minNum {
          liveNum := liveNum - 1;
          ThreadExit(self);
          exited := true;
        }
      }
    }

    /** `worker` after its wait loop: exit on shutdown, else take the front
        task and count busy twice. */
    method WorkerTakeTask(self: nat) returns (outcome: Outcome<T>)
      requires Valid() && !WaitCondition()
      modifies this, threadIDs, taskQ
      ensures Valid() && TakeTask(old(State()), self) == TakeResult(State(), outcome)
    {
      if shutdown {
        ThreadExit(self);
        return Exited;
      }
      var task := taskQ.GetTask();
      busyNum := busyNum + 1;
      busyNum := busyNum + 1;
      outcome := Run(task);
    }

    /** `worker` after the callback has returned. */
    method WorkerFinishTask()
      requires Valid()
      modifies this
      ensures Valid() && State() == FinishTask(old(State()))
    {
      busyNum := busyNum - 1;
    }
  }
}
