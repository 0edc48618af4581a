/** utils/concurrent_utils.py: the FIFO of pending transfers and the id
    bookkeeping of the task manager.  The executor's threads and the queue's
    lock are not modelled; a future is seen only through its state. */
module ConcurrentUtils {
  import opened Common
  import opened Config

  // ---------------------------------------------------------------- queue

  /** A transfer task record; `timestamp` is the `time.time()` reading,
      passed in as whole seconds. */
  datatype Task = Task(filePath: string, targetIp: string, targetPort: int,
                       status: string, progress: int, timestamp: int)

  /** The record `add_transfer_task` builds. */
  function NewTask(filePath: string, targetIp: string, targetPort: int, now: int): (t: Task)
    ensures t.status == "pending" && t.progress == 0
    ensures t.filePath == filePath && t.targetIp == targetIp && t.targetPort == targetPort
    ensures t.timestamp == now
  {
    Task(filePath, targetIp, targetPort, "pending", 0, now)
  }

  /** An operation on the queue: `put` of a task, or `get_next_task`. */
  datatype QueueOp = Put(task: Task) | Take

  /** One operation: the new contents and what a `Take` hands out. */
  function Step(q: seq<Task>, op: QueueOp): (res: (seq<Task>, Option<Task>))
    ensures op.Put? ==> res == (q + [op.task], None)
    ensures op.Take? && q == [] ==> res == ([], None)
    ensures op.Take? && q != [] ==> res.1 == Some(q[0]) && res.0 == q[1..]
  {
    match op
    case Put(t) => (q + [t], None)
    case Take => if q == [] then (q, None) else (q[1..], Some(q[0]))
  }

  /** The tasks `ops` puts, in order. */
  function Added(ops: seq<QueueOp>): seq<Task>
  {
    if ops == [] then []
    else (if ops[0].Put? then [ops[0].task] else []) + Added(ops[1..])
  }

  /** Run `ops` from contents `q`: the final contents and the tasks handed
      out, in order. */
  function Run(q: seq<Task>, ops: seq<QueueOp>): (seq<Task>, seq<Task>)
    decreases |ops|
  {
    if ops == [] then (q, [])
    else
      var (q1, out) := Step(q, ops[0]);
      var (final, outs) := Run(q1, ops[1..]);
      (final, (if out.Some? then [out.value] else []) + outs)
  }

  /** First in, first out: whatever the interleaving of puts and gets, the
      tasks handed out followed by those still queued are exactly the tasks
      that were queued followed by those put, in order. */
  lemma {:induction false} FifoOrder(q: seq<Task>, ops: seq<QueueOp>)
    ensures Run(q, ops).1 + Run(q, ops).0 == q + Added(ops)
    decreases |ops|
  {
    if ops != [] {
      var (q1, out) := Step(q, ops[0]);
      FifoOrder(q1, ops[1..]);
      match ops[0]
      case Put(t) =>
        assert q1 + Added(ops[1..]) == q + Added(ops);
      case Take =>
        assert Added(ops) == Added(ops[1..]);
        if q != [] {
          var r := Run(q1, ops[1..]);
          assert Run(q, ops) == (r.0, [q[0]] + r.1);
          assert q == [q[0]] + q1;
          assert [q[0]] + r.1 + r.0 == [q[0]] + (r.1 + r.0);
        }
    }
  }

  class TransferQueue {
    var items: seq<Task>

    constructor ()
      ensures items == []
    {
      items := [];
    }

    /** `add_transfer_task`: build a pending task, enqueue it, return it. */
    method AddTransferTask(filePath: string, targetIp: string, now: int, targetPort: int := DEFAULT_TCP_PORT)
      returns (task: Task)
      modifies this
      ensures task == NewTask(filePath, targetIp, targetPort, now)
      ensures (items, None) == Step(old(items), Put(task))
      ensures |items| == |old(items)| + 1
    {
      task := NewTask(filePath, targetIp, targetPort, now);
      items := items + [task];
    }

    /** `get_next_task`: the oldest task, removed, or `None` when empty. */
    method GetNextTask() returns (task: Option<Task>)
      modifies this
      ensures (items, task) == Step(old(items), Take)
      ensures old(items) == [] ==> task == None && items == []
      ensures old(items) != [] ==> |items| == |old(items)| - 1
    {
      if items == [] {
        return None;
      }
      task := Some(items[0]);
      items := items[1..];
    }

    method GetQueueSize() returns (n: nat)
      ensures n == |items|
    {
      n := |items|;
    }

    method IsEmpty() returns (b: bool)
      ensures b <==> |items| == 0
    {
      b := items == [];
    }
  }

  // ----------------------------------------------------------- task ids

  /** What a future is seen as: not started, running, or done in one of
      three ways. */
  datatype FutureState = Pending | Running | Finished(value: int) | Raised | Cancelled

  predicate IsDone(s: FutureState)
  {
    s.Finished? || s.Raised? || s.Cancelled?
  }

  /** What `get_result` does: no such task (`None`), the value, the
      exception `result()` raises, or waiting for a future not done yet. */
  datatype ResultOutcome = NoTask | Value(value: int) | RaisesError | RaisesCancelled | Blocks

  /** The ids below `n` whose future is not done. */
  ghost function ActiveBelow(futures: map<int, FutureState>, n: nat): set<int>
  {
    set id: int | 0 <= id < n && id in futures && !IsDone(futures[id])
  }

  class TaskManager {
    var futures: map<int, FutureState>
    var taskCounter: nat
    const maxWorkers: nat

    /** The ids issued so far are exactly 0 .. taskCounter - 1. */
    ghost predicate Valid()
      reads this
    {
      forall id: int :: id in futures <==> 0 <= id < taskCounter
    }

    constructor (maxWorkers: nat := 5)
      ensures Valid() && futures == map[] && taskCounter == 0 && this.maxWorkers == maxWorkers
    {
      futures, taskCounter := map[], 0;
      this.maxWorkers := maxWorkers;
    }

    /** `submit_task`: the next id, bound to the new future. */
    method SubmitTask() returns (id: nat)
      requires Valid()
      modifies this
      ensures Valid()
      ensures id == old(taskCounter) && taskCounter == old(taskCounter) + 1
      ensures id !in old(futures) && futures == old(futures)[id := Pending]
    {
      id := taskCounter;
      futures := futures[id := Pending];
      taskCounter := taskCounter + 1;
    }

    /** `get_result`. */
    method GetResult(id: int) returns (r: ResultOutcome)
      ensures id !in futures ==> r == NoTask
      ensures id in futures ==>
        match futures[id]
        case Finished(v) => r == Value(v)
        case Raised => r == RaisesError
        case Cancelled => r == RaisesCancelled
        case _ => r == Blocks
    {
      if id !in futures {
        return NoTask;
      }
      match futures[id] {
        case Finished(v) => r := Value(v);
        case Raised => r := RaisesError;
        case Cancelled => r := RaisesCancelled;
        case Pending => r := Blocks;
        case Running => r := Blocks;
      }
    }

    /** `is_task_done`. */
    method IsTaskDone(id: int) returns (b: bool)
      ensures b <==> id in futures && IsDone(futures[id])
    {
      b := id in futures && IsDone(futures[id]);
    }

    /** `cancel_task`: only a future that has not started can be cancelled;
        one already cancelled reports success again. */
    method CancelTask(id: int) returns (ok: bool)
      requires Valid()
      modifies this
      ensures Valid() && taskCounter == old(taskCounter)
      ensures id !in old(futures) ==> !ok && futures == old(futures)
      ensures id in old(futures) ==>
        ok == (old(futures)[id].Pending? || old(futures)[id].Cancelled?)
      ensures futures == if ok then old(futures)[id := Cancelled] else old(futures)
    {
      if id !in futures {
        return false;
      }
      match futures[id] {
        case Pending =>
          futures := futures[id := Cancelled];
          ok := true;
        case Cancelled =>
          ok := true;
        case _ =>
          ok := false;
      }
    }

    /** `get_active_tasks_count`: the futures not done, never more than the
        tasks submitted. */
    method GetActiveTasksCount() returns (count: nat)
      requires Valid()
      ensures count == |ActiveBelow(futures, taskCounter)|
      ensures count <= taskCounter
    {
      count := 0;
      var id := 0;
      while id < taskCounter
        invariant 0 <= id <= taskCounter
        invariant count == |ActiveBelow(futures, id)|
        invariant count <= id
      {
        assert id in futures;
        if !IsDone(futures[id]) {
          assert ActiveBelow(futures, id + 1) == ActiveBelow(futures, id) + {id};
          count := count + 1;
        } else {
          assert ActiveBelow(futures, id + 1) == ActiveBelow(futures, id);
        }
        id := id + 1;
      }
    }
  }
}
