/** The task record and the lock-protected FIFO of tasks (TaskQueue.h).
    The lock is not modelled: every operation is one atomic step. */
module TaskQueues {

  /** A C pointer: null, or the address of a value. */
  datatype Ptr<X> = Null | Ref(target: X)

  /** A `void (*)(void*)` callback, identified by its entry address. */
  datatype Callback = Callback(entry: nat)

  /** A unit of work: a callback and the argument it is called with.
      The datatype constructor is the two-argument `Task(f, arg)`. */
  datatype Task<T> = Task(func: Ptr<Callback>, arg: Ptr<T>) {
    /** The sentinel `getTask` hands out when there is nothing to do. */
    predicate IsEmpty() {
      func.Null? && arg.Null?
    }
  }

  /** The default constructor `Task()`: both pointers null. */
  function EmptyTask<T>(): (t: Task<T>)
    ensures t.IsEmpty()
  {
    Task(Null, Null)
  }

  // ---------------------------------------------------------------------
  // The queue as a value: the specification of TaskQueue's methods.

  /** `push`: the new task goes to the back. */
  function Enqueue<T>(q: seq<Task<T>>, t: Task<T>): (r: seq<Task<T>>)
    ensures |r| == |q| + 1 && r[|q|] == t
    ensures forall i :: 0 <= i < |q| ==> r[i] == q[i]
  {
    q + [t]
  }

  /** `getTask`: the front task and what stays queued, or the empty task
      and an empty queue when there is nothing queued. */
  function Dequeue<T>(q: seq<Task<T>>): (r: (Task<T>, seq<Task<T>>))
    ensures q == [] ==> r.0.IsEmpty() && r.1 == []
    ensures q != [] ==> [r.0] + r.1 == q
  {
    if q == [] then (EmptyTask(), []) else (q[0], q[1..])
  }

  /** Pushing the tasks of `ts` one after the other. */
  function EnqueueAll<T>(q: seq<Task<T>>, ts: seq<Task<T>>): seq<Task<T>>
    decreases |ts|
  {
    if ts == [] then q else EnqueueAll(Enqueue(q, ts[0]), ts[1..])
  }

  /** Calling `getTask` `n` times: the tasks handed out, in order, and the
      queue that is left. */
  function DequeueN<T>(q: seq<Task<T>>, n: nat): (seq<Task<T>>, seq<Task<T>>)
  {
    if n == 0 then ([], q)
    else
      var (t, rest) := Dequeue(q);
      var (out, left) := DequeueN(rest, n - 1);
      ([t] + out, left)
  }

  /** One push on a non-empty queue does not change which task is next. */
  lemma EnqueueKeepsFront<T>(q: seq<Task<T>>, t: Task<T>)
    ensures Dequeue(Enqueue(q, t)) ==
            if q == [] then (t, []) else (Dequeue(q).0, Enqueue(Dequeue(q).1, t))
  {
    if q != [] {
      assert (q + [t])[1..] == q[1..] + [t];
    }
  }

  /** Pushing a sequence of tasks appends exactly that sequence. */
  lemma {:induction false} EnqueueAllAppends<T>(q: seq<Task<T>>, ts: seq<Task<T>>)
    ensures EnqueueAll(q, ts) == q + ts
    decreases |ts|
  {
    if ts != [] {
      EnqueueAllAppends(Enqueue(q, ts[0]), ts[1..]);
      assert (q + [ts[0]]) + ts[1..] == q + ts;
    }
  }

  /** `n` pops hand out the first `n` tasks in queue order and leave the rest. */
  lemma {:induction false} DequeueNTakesPrefix<T>(q: seq<Task<T>>, n: nat)
    requires n <= |q|
    ensures DequeueN(q, n) == (q[..n], q[n..])
  {
    if n > 0 {
      DequeueNTakesPrefix(q[1..], n - 1);
      assert [q[0]] + q[1..][..n - 1] == q[..n];
      assert q[1..][n - 1..] == q[n..];
    }
  }

  /** Pops beyond the end never block: each extra one yields the empty task. */
  lemma {:induction false} DequeueNPastEnd<T>(q: seq<Task<T>>, n: nat)
    requires |q| <= n
    ensures DequeueN(q, n).1 == []
    ensures DequeueN(q, n).0 == q + seq(n - |q|, _ => EmptyTask())
  {
    if n > 0 {
      DequeueNPastEnd(Dequeue(q).1, n - 1);
      if q == [] {
        assert seq(n, _ => EmptyTask<T>()) == [EmptyTask()] + seq(n - 1, _ => EmptyTask());
      } else {
        assert [q[0]] + (q[1..] + seq(n - |q|, _ => EmptyTask<T>())) == q + seq(n - |q|, _ => EmptyTask());
      }
    }
  }

  /** FIFO: tasks pushed in the order t1..tn onto a queue holding q come out,
      after everything in q, as t1..tn, and the queue is empty again. */
  lemma {:induction false} FifoOrder<T>(q: seq<Task<T>>, ts: seq<Task<T>>)
    ensures DequeueN(EnqueueAll(q, ts), |q| + |ts|) == (q + ts, [])
  {
    EnqueueAllAppends(q, ts);
    DequeueNTakesPrefix(q + ts, |q| + |ts|);
    assert (q + ts)[..|q| + |ts|] == q + ts;
  }

  // ---------------------------------------------------------------------
  // The object.

  /** `TaskQueue<T>`: the `std::queue` member is the sequence `items`,
      front first. */
  class TaskQueue<T> {
    var items: seq<Task<T>>

    constructor ()
      ensures items == []
    {
      items := [];
    }

    /** `addTask(Task<T> task)`. */
    method AddTask(task: Task<T>)
      modifies this
      ensures items == Enqueue(old(items), task)
    {
      items := items + [task];
    }

    /** `addTask(callback f, T* arg)`: builds `Task(f, arg)` and pushes it. */
    method AddTaskFrom(f: Ptr<Callback>, arg: Ptr<T>)
      modifies this
      ensures items == Enqueue(old(items), Task(f, arg))
    {
      items := items + [Task(f, arg)];
    }

    /** `getTask()`: starts from the default task and overwrites it with the
        front only when the queue is not empty; never blocks. */
    method GetTask() returns (t: Task<T>)
      modifies this
      ensures (t, items) == Dequeue(old(items))
      ensures old(items) == [] ==> t.IsEmpty() && items == []
      ensures old(items) != [] ==> t == old(items)[0] && items == old(items)[1..]
    {
      t := EmptyTask();
      if items != [] {
        t := items[0];
        items := items[1..];
      }
    }

    /** `taskSize()`: the number of queued tasks. */
    method TaskSize() returns (n: nat)
      ensures n == |items|
    {
      n := |items|;
    }
  }
}
