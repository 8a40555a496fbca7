/** The bookkeeping of ThreadPool.h as a value: the counters, the slot
    table and the queue, and one function per step that changes them.
    Every step is taken as one atomic action under `m_locker`; which thread
    takes which step when is left to the caller. Thread creation is "the slot
    receives a fresh nonzero id", and those ids are parameters. */
module PoolSpec {
  import opened TaskQueues
  import opened SlotTables

  /** `ADD_THREAD_PER_NUM`: threads added per manager tick, and the exit quota
      set by one scale-down decision. */
  const AddThreadPerNum: nat := 2

  datatype PoolState<T> = PoolState(
    minNum: int,            // m_minNum
    maxNum: int,            // m_maxNum
    busyNum: int,           // m_busyNum
    liveNum: int,           // m_liveNum
    exitNum: int,           // m_exitNum
    shutdown: bool,         // m_shutdown
    slots: seq<nat>,        // m_threadIDs, 0 = free
    queue: seq<Task<T>>)    // the contents of *m_taskQ

  /** What a woken worker did: kept waiting, or left through `threadExit`. */
  datatype WakeResult<T> = WakeResult(state: PoolState<T>, exited: bool)

  /** What a worker does once out of its wait loop. */
  datatype Outcome<T> = Exited | Run(task: Task<T>)

  datatype TakeResult<T> = TakeResult(state: PoolState<T>, outcome: Outcome<T>)

  /** The number of workers the constructor's loop starts. */
  function StartCount(min: int): nat
  {
    if min > 0 then min else 0
  }

  /** Ids handed out by `pthread_create` are nonzero. */
  predicate NonzeroIds(ids: seq<nat>)
  {
    forall j :: 0 <= j < |ids| ==> ids[j] > 0
  }

  /** What holds after every step exactly as the source is written. */
  predicate Inv<T>(s: PoolState<T>)
  {
    0 <= s.maxNum && s.minNum <= s.maxNum && |s.slots| == s.maxNum &&
    0 <= s.exitNum <= AddThreadPerNum &&
    s.liveNum <= s.maxNum
  }

  /** The intended steady state: the live count lies between the bounds and
      equals the number of occupied slots. */
  predicate Steady<T>(s: PoolState<T>)
  {
    Inv(s) && s.minNum <= s.liveNum && Occupied(s.slots) == s.liveNum
  }

  // ---------------------------------------------------------------------
  // The steps

  /** The constructor: counters cleared, the table zeroed, then the first
      `min` slots receive the started workers' ids; `m_liveNum` stays 0. */
  function Init<T>(min: int, max: int, ids: seq<nat>): (s: PoolState<T>)
    requires 0 <= max && min <= max && |ids| == StartCount(min)
    ensures Inv(s)
  {
    PoolState(min, max, 0, 0, 0, false, ids + seq(max - |ids|, _ => 0), [])
  }

  /** `ThreadPool::addTask`: dropped after shutdown, else queued at the back. */
  function Submit<T>(s: PoolState<T>, task: Task<T>): PoolState<T>
  {
    if s.shutdown then s else s.(queue := Enqueue(s.queue, task))
  }

  /** The manager's scale-up test on its snapshot. */
  predicate ShouldScaleUp(taskCnt: int, aliveCnt: int, maxNum: int)
  {
    taskCnt > aliveCnt && aliveCnt < maxNum
  }

  /** The manager's scale-down test on its snapshot (`busyCnt << 1` is
      `busyCnt * 2`). */
  predicate ShouldScaleDown(busyCnt: int, aliveCnt: int, minNum: int)
  {
    busyCnt * 2 < aliveCnt && aliveCnt > minNum
  }

  /** How many threads the scan may still add before `cnt` reaches
      `ADD_THREAD_PER_NUM` or the live count reaches the maximum. */
  function ScaleUpBudget(liveNum: int, maxNum: int): nat
  {
    if liveNum < maxNum then Min(AddThreadPerNum, maxNum - liveNum) else 0
  }

  /** The scan that fills free slots in index order with fresh ids. */
  function ScaleUp<T>(s: PoolState<T>, ids: seq<nat>): PoolState<T>
    requires |ids| >= AddThreadPerNum
  {
    var k := ScaleUpBudget(s.liveNum, s.maxNum);
    s.(slots := FillFree(s.slots, ids, k), liveNum := s.liveNum + Min(k, CountFree(s.slots)))
  }

  /** The scale-down action: set the exit quota. */
  function ScaleDown<T>(s: PoolState<T>): PoolState<T>
  {
    s.(exitNum := AddThreadPerNum)
  }

  /** One manager tick: both decisions are taken on the snapshot made
      before either acts. */
  function ManagerTick<T>(s: PoolState<T>, ids: seq<nat>): PoolState<T>
    requires |ids| >= AddThreadPerNum
  {
    var s1 := if ShouldScaleUp(|s.queue|, s.liveNum, s.maxNum) then ScaleUp(s, ids) else s;
    if ShouldScaleDown(s.busyNum, s.liveNum, s.minNum) then ScaleDown(s1) else s1
  }

  /** The wait loop's condition: nothing queued and no shutdown. */
  predicate MustWait<T>(s: PoolState<T>)
  {
    |s.queue| == 0 && !s.shutdown
  }

  /** What worker `self` does each time it wakes inside the wait loop. */
  function Wake<T>(s: PoolState<T>, self: nat): WakeResult<T>
  {
    if s.exitNum > 0 then
      if s.liveNum > s.minNum then
        WakeResult(s.(exitNum := s.exitNum - 1, liveNum := s.liveNum - 1,
                      slots := ClearSlot(s.slots, self)), true)
      else
        WakeResult(s.(exitNum := s.exitNum - 1), false)
    else
      WakeResult(s, false)
  }

  /** After the wait loop: leave on shutdown, else dequeue and count the
      worker busy, once under the lock and once more after releasing it. */
  function TakeTask<T>(s: PoolState<T>, self: nat): TakeResult<T>
    requires !MustWait(s)
  {
    if s.shutdown then
      TakeResult(s.(slots := ClearSlot(s.slots, self)), Exited)
    else
      var (t, rest) := Dequeue(s.queue);
      TakeResult(s.(queue := rest, busyNum := s.busyNum + 1 + 1), Run(t))
  }

  /** After the callback returns: the busy count drops by one. */
  function FinishTask<T>(s: PoolState<T>): PoolState<T>
  {
    s.(busyNum := s.busyNum - 1)
  }

  // ---------------------------------------------------------------------
  // What each step does

  /** Submitting after shutdown changes nothing; before, the queue grows by
      exactly that task at the back and nothing else changes. */
  lemma SubmitEffect<T>(s: PoolState<T>, task: Task<T>)
    ensures s.shutdown ==> Submit(s, task) == s
    ensures !s.shutdown ==> Submit(s, task).queue == s.queue + [task]
    ensures Submit(s, task).(queue := s.queue) == s
  {
  }

  /** Scale-up adds exactly min(2, max - live, free slots) threads, never
      passes the maximum, fills the lowest-index free slots with the fresh
      ids in order, and leaves every occupied slot alone. */
  lemma ScaleUpEffect<T>(s: PoolState<T>, ids: seq<nat>)
    requires Inv(s) && |ids| >= AddThreadPerNum && NonzeroIds(ids)
    requires s.liveNum < s.maxNum
    ensures var r := ScaleUp(s, ids);
            var n := r.liveNum - s.liveNum;
            n == Min(AddThreadPerNum, Min(s.maxNum - s.liveNum, CountFree(s.slots))) &&
            r.liveNum <= r.maxNum &&
            |r.slots| == |s.slots| &&
            Occupied(r.slots) == Occupied(s.slots) + n &&
            (forall i :: 0 <= i < |s.slots| && s.slots[i] != 0 ==> r.slots[i] == s.slots[i]) &&
            (forall i :: 0 <= i < |s.slots| && s.slots[i] == 0 ==>
              r.slots[i] == if CountFree(s.slots[..i]) < n then ids[CountFree(s.slots[..i])] else 0) &&
            r.(slots := s.slots, liveNum := s.liveNum) == s
  {
    var k := ScaleUpBudget(s.liveNum, s.maxNum);
    var n := Min(k, CountFree(s.slots));
    FillFreeKeepsOccupied(s.slots, ids, k);
    FillFreeCount(s.slots, ids, k);
    forall i | 0 <= i < |s.slots| && s.slots[i] == 0
      ensures FillFree(s.slots, ids, k)[i] ==
              if CountFree(s.slots[..i]) < n then ids[CountFree(s.slots[..i])] else 0
    {
      FillFreeAt(s.slots, ids, k, i);
      FreeBeforeFree(s.slots, i);
    }
  }

  /** A tick changes nothing unless a decision fires; scale-down sets the
      exit quota to exactly 2 without touching the live count or the table. */
  lemma ManagerTickEffect<T>(s: PoolState<T>, ids: seq<nat>)
    requires |ids| >= AddThreadPerNum
    ensures var up := ShouldScaleUp(|s.queue|, s.liveNum, s.maxNum);
            var down := ShouldScaleDown(s.busyNum, s.liveNum, s.minNum);
            var r := ManagerTick(s, ids);
            (!up && !down ==> r == s) &&
            (down ==> r.exitNum == AddThreadPerNum) &&
            (!down ==> r.exitNum == s.exitNum) &&
            (!up ==> r.liveNum == s.liveNum && r.slots == s.slots) &&
            (up ==> r.liveNum == ScaleUp(s, ids).liveNum && r.slots == ScaleUp(s, ids).slots) &&
            r.queue == s.queue && r.busyNum == s.busyNum && r.shutdown == s.shutdown
  {
  }

  /** The wake rule: a positive quota is always consumed; the worker exits,
      and the live count drops by one, exactly when that count is above the
      minimum, so this path never takes it below the minimum. */
  lemma WakeRule<T>(s: PoolState<T>, self: nat)
    ensures var r := Wake(s, self);
            (r.exited <==> s.exitNum > 0 && s.liveNum > s.minNum) &&
            (s.exitNum > 0 ==> r.state.exitNum == s.exitNum - 1) &&
            (s.exitNum <= 0 ==> r.state == s) &&
            r.state.liveNum == (if r.exited then s.liveNum - 1 else s.liveNum) &&
            (s.liveNum >= s.minNum ==> r.state.liveNum >= s.minNum) &&
            r.state.slots == (if r.exited then ClearSlot(s.slots, self) else s.slots) &&
            r.state.queue == s.queue && r.state.busyNum == s.busyNum
  {
  }

  /** Out of the wait loop a worker either exits (shutdown: nothing is
      dequeued, its slot is cleared, the live count is left as it was) or
      takes the front task, which is a real queued task, and counts +2 busy. */
  lemma TakeTaskRule<T>(s: PoolState<T>, self: nat)
    requires !MustWait(s)
    ensures var r := TakeTask(s, self);
            (r.outcome.Exited? <==> s.shutdown) &&
            (s.shutdown ==> r.state == s.(slots := ClearSlot(s.slots, self))) &&
            (!s.shutdown ==> r.outcome == Run(s.queue[0]) && r.state.queue == s.queue[1..] &&
                             r.state.busyNum == s.busyNum + 2 &&
                             r.state.(queue := s.queue, busyNum := s.busyNum) == s)
  {
  }

  // ---------------------------------------------------------------------
  // Invariants

  /** Every step keeps `Inv`. */
  lemma StepsKeepInv<T>(s: PoolState<T>, task: Task<T>, ids: seq<nat>, self: nat)
    requires Inv(s) && |ids| >= AddThreadPerNum
    ensures Inv(Submit(s, task))
    ensures Inv(ManagerTick(s, ids))
    ensures Inv(Wake(s, self).state)
    ensures !MustWait(s) ==> Inv(TakeTask(s, self).state)
    ensures Inv(FinishTask(s))
  {
  }

  /** Scale-up keeps the steady state: as many slots are occupied as live
      workers are added. */
  lemma ScaleUpKeepsSteady<T>(s: PoolState<T>, ids: seq<nat>)
    requires Steady(s) && |ids| >= AddThreadPerNum && NonzeroIds(ids)
    ensures Steady(ScaleUp(s, ids))
  {
    FillFreeCount(s.slots, ids, ScaleUpBudget(s.liveNum, s.maxNum));
  }

  /** A woken worker registered in the table keeps the steady state. */
  lemma WakeKeepsSteady<T>(s: PoolState<T>, self: nat)
    requires Steady(s) && self != 0 && self in s.slots
    ensures Steady(Wake(s, self).state)
  {
    ClearSlotFreesOne(s.slots, self);
  }

  /** The steady state survives every step except a shutdown exit. */
  lemma StepsKeepSteady<T>(s: PoolState<T>, task: Task<T>, ids: seq<nat>, self: nat)
    requires Steady(s) && |ids| >= AddThreadPerNum && NonzeroIds(ids)
    ensures Steady(Submit(s, task))
    ensures Steady(ManagerTick(s, ids))
    ensures self != 0 && self in s.slots ==> Steady(Wake(s, self).state)
    ensures !MustWait(s) && !s.shutdown ==> Steady(TakeTask(s, self).state)
    ensures Steady(FinishTask(s))
  {
    if ShouldScaleUp(|s.queue|, s.liveNum, s.maxNum) {
      ScaleUpKeepsSteady(s, ids);
    }
    if self != 0 && self in s.slots {
      WakeKeepsSteady(s, self);
    }
  }

  /** A shutdown exit frees the worker's slot but leaves `m_liveNum` alone,
      so afterwards one fewer slot is occupied than the live count says. */
  lemma ShutdownExitLeavesLiveNum<T>(s: PoolState<T>, self: nat)
    requires Steady(s) && s.shutdown && self != 0 && self in s.slots
    ensures var r := TakeTask(s, self).state;
            r.liveNum == s.liveNum && Occupied(r.slots) == r.liveNum - 1
  {
    ClearSlotFreesOne(s.slots, self);
  }

  // ---------------------------------------------------------------------
  // Finding: the busy counter drifts by one per task

  /** `n` tasks taken and finished one after the other, as written. */
  function CompleteTasks<T>(s: PoolState<T>, self: nat, n: nat): PoolState<T>
    requires !s.shutdown && n <= |s.queue|
    decreases n
  {
    if n == 0 then s else CompleteTasks(FinishTask(TakeTask(s, self).state), self, n - 1)
  }

  /** As written: after `n` tasks have run to completion and nobody is at
      work, the busy count is `n` higher than before. */
  lemma {:induction false} BusyDriftAsWritten<T>(s: PoolState<T>, self: nat, n: nat)
    requires !s.shutdown && n <= |s.queue|
    ensures CompleteTasks(s, self, n).busyNum == s.busyNum + n
    ensures CompleteTasks(s, self, n).queue == s.queue[n..]
    decreases n
  {
    if n > 0 {
      var s1 := FinishTask(TakeTask(s, self).state);
      BusyDriftAsWritten(s1, self, n - 1);
      assert s.queue[1..][n - 1..] == s.queue[n..];
    }
  }

  /** Consequence: the busy count can pass the live count. One live worker,
      registered in one of two slots, runs two tasks to completion; the busy
      count is then 2 while the live count is 1. */
  lemma BusyDriftExceedsLive(t: Task<int>)
    ensures var s := PoolState(1, 2, 0, 1, 0, false, [7, 0], [t, t]);
            var r := CompleteTasks(s, 7, 2);
            Steady(s) && r.busyNum == 2 && r.liveNum == 1 && r.busyNum > r.liveNum
  {
    var s := PoolState(1, 2, 0, 1, 0, false, [7, 0], [t, t]);
    BusyDriftAsWritten(s, 7, 2);
    CompleteTasksKeepsWorkers(s, 7, 2);
    assert [7, 0][1..] == [0];
    assert CountFree([7, 0]) == 1;
  }

  /** Consequence: once as many tasks have completed as half the live
      workers, the scale-down test can no longer fire, however idle the pool. */
  lemma BusyDriftBlocksScaleDown<T>(s: PoolState<T>, self: nat, n: nat)
    requires !s.shutdown && n <= |s.queue| && s.busyNum >= 0
    requires 2 * n >= s.liveNum
    ensures var r := CompleteTasks(s, self, n);
            !ShouldScaleDown(r.busyNum, r.liveNum, r.minNum)
  {
    BusyDriftAsWritten(s, self, n);
    CompleteTasksKeepsWorkers(s, self, n);
  }

  lemma {:induction false} CompleteTasksKeepsWorkers<T>(s: PoolState<T>, self: nat, n: nat)
    requires !s.shutdown && n <= |s.queue|
    ensures CompleteTasks(s, self, n).liveNum == s.liveNum
    ensures CompleteTasks(s, self, n).minNum == s.minNum
    decreases n
  {
    if n > 0 {
      CompleteTasksKeepsWorkers(FinishTask(TakeTask(s, self).state), self, n - 1);
    }
  }

  /** Intended: the busy count goes up by exactly one per dequeued task. */
  function TakeTaskCorrected<T>(s: PoolState<T>, self: nat): TakeResult<T>
    requires !MustWait(s)
  {
    if s.shutdown then
      TakeResult(s.(slots := ClearSlot(s.slots, self)), Exited)
    else
      var (t, rest) := Dequeue(s.queue);
      TakeResult(s.(queue := rest, busyNum := s.busyNum + 1), Run(t))
  }

  function CompleteTasksCorrected<T>(s: PoolState<T>, self: nat, n: nat): PoolState<T>
    requires !s.shutdown && n <= |s.queue|
    decreases n
  {
    if n == 0 then s
    else CompleteTasksCorrected(FinishTask(TakeTaskCorrected(s, self).state), self, n - 1)
  }

  /** Corrected: each task in flight counts one while it runs, and once `n`
      tasks have completed the busy count is back where it started. */
  lemma {:induction false} BusyBalancedCorrected<T>(s: PoolState<T>, self: nat, n: nat)
    requires !s.shutdown && n <= |s.queue|
    ensures n > 0 ==> TakeTaskCorrected(s, self).state.busyNum == s.busyNum + 1
    ensures CompleteTasksCorrected(s, self, n).busyNum == s.busyNum
    ensures CompleteTasksCorrected(s, self, n).queue == s.queue[n..]
    ensures CompleteTasksCorrected(s, self, n).liveNum == s.liveNum
    decreases n
  {
    if n > 0 {
      var s1 := FinishTask(TakeTaskCorrected(s, self).state);
      BusyBalancedCorrected(s1, self, n - 1);
      assert s.queue[1..][n - 1..] == s.queue[n..];
    }
  }

  /** A concrete run: four live workers, minimum two, two tasks queued. Once
      both have finished, the as-written count says 2 busy and scale-down
      stays off; the corrected count says 0 busy and scale-down fires. */
  lemma BusyDriftExample(t: Task<int>)
    ensures var s := PoolState(2, 4, 0, 4, 0, false, [1, 2, 3, 4], [t, t]);
            var w := CompleteTasks(s, 1, 2);
            var c := CompleteTasksCorrected(s, 1, 2);
            w.busyNum == 2 && !ShouldScaleDown(w.busyNum, w.liveNum, w.minNum) &&
            c.busyNum == 0 && ShouldScaleDown(c.busyNum, c.liveNum, c.minNum)
  {
    var s := PoolState(2, 4, 0, 4, 0, false, [1, 2, 3, 4], [t, t]);
    BusyDriftAsWritten(s, 1, 2);
    BusyBalancedCorrected(s, 1, 2);
    CompleteTasksKeepsWorkers(s, 1, 2);
  }

  // ---------------------------------------------------------------------
  // Finding: the constructor leaves the live count at 0

  /** As written: with at least one worker started, the constructed state
      is not steady, since `min` slots are occupied while `m_liveNum` is 0. */
  lemma InitNotSteady<T>(min: int, max: int, ids: seq<nat>)
    requires 0 < min <= max && |ids| == min && NonzeroIds(ids)
    ensures Occupied(Init<T>(min, max, ids).slots) == min
    ensures Init<T>(min, max, ids).liveNum == 0
    ensures !Steady(Init<T>(min, max, ids))
  {
    CountFreeIdsThenZeros(ids, max - min);
  }

  /** Intended: the constructor counts the workers it starts. */
  function InitCorrected<T>(min: int, max: int, ids: seq<nat>): PoolState<T>
    requires 0 <= max && min <= max && |ids| == StartCount(min)
  {
    Init<T>(min, max, ids).(liveNum := StartCount(min))
  }

  /** Corrected: for a non-negative minimum the constructed state is steady,
      and `StepsKeepSteady` carries that through every later step. */
  lemma InitCorrectedSteady<T>(min: int, max: int, ids: seq<nat>)
    requires 0 <= min <= max && |ids| == min && NonzeroIds(ids)
    ensures Steady(InitCorrected<T>(min, max, ids))
    ensures forall i :: 0 <= i < min ==> InitCorrected<T>(min, max, ids).slots[i] == ids[i]
  {
    CountFreeIdsThenZeros(ids, max - min);
  }
}
