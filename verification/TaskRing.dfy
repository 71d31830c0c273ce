/** `vtask_list`: the bounded ring of tasks. */
module TaskRing {
  import opened Basics

  datatype Attr = DefaultProc | InfiniteProc

  /** A task; `id` stands for its argument, and a task without a procedure is skipped by the worker. */
  datatype Task = Task(id: nat, attr: Attr, hasProc: bool)

  /** A task meant never to return. */
  predicate Endless(t: Task) {
    t.hasProc && t.attr == InfiniteProc
  }

  /** A task with a procedure that returns. */
  predicate Plain(t: Task) {
    t.hasProc && t.attr == DefaultProc
  }

  const ZERO_TASK: Task := Task(0, DefaultProc, false)

  datatype Ring = Ring(items: seq<Task>, read: nat, write: nat, count: nat)

  /** The write cursor is `count` places behind the read cursor. */
  predicate RingOk(r: Ring) {
    && r.read < |r.items| && r.count <= |r.items|
    && r.write == Wrapped(r.read, r.count, |r.items|)
  }

  /** The tasks queued, oldest first. */
  function Contents(r: Ring): (q: seq<Task>)
    requires RingOk(r)
    ensures |q| == r.count
  {
    seq(r.count, k requires 0 <= k < r.count => r.items[Wrapped(r.read, k, |r.items|)])
  }

  function EmptyRing(cap: nat): (r: Ring)
    requires 0 < cap
    ensures RingOk(r) && Contents(r) == [] && |r.items| == cap
  {
    Ring(seq(cap, _ => ZERO_TASK), 0, 0, 0)
  }

  /** The body of `VTaskList_Enqueue` behind its wait loop. */
  function Enqueued(r: Ring, t: Task): Ring
    requires r.write < |r.items|
  {
    Ring(r.items[r.write := t], r.read, (r.write + 1) % |r.items|, r.count + 1)
  }

  /** `VTaskList_Dequeue`. */
  function Dequeued(r: Ring): (Task, Ring)
    requires r.read < |r.items|
  {
    if r.count == 0 then (ZERO_TASK, r)
    else (r.items[r.read], Ring(r.items, (r.read + 1) % |r.items|, r.write, r.count - 1))
  }

  /** Enqueuing appends, as long as the ring is not full. */
  lemma {:induction false} EnqueuedAppends(r: Ring, t: Task)
    requires RingOk(r) && r.count < |r.items|
    ensures RingOk(Enqueued(r, t)) && Contents(Enqueued(r, t)) == Contents(r) + [t]
  {
    var cap, e := |r.items|, Enqueued(r, t);
    WrappedIsModulo(r.write, 1, cap);
    forall k | 0 <= k < r.count ensures Contents(e)[k] == Contents(r)[k] {
      assert Wrapped(r.read, k, cap) != r.write;
    }
  }

  /** Dequeuing takes the oldest task. */
  lemma {:induction false} DequeuedTakes(r: Ring)
    requires RingOk(r) && 0 < r.count
    ensures var (t, d) := Dequeued(r);
      RingOk(d) && |d.items| == |r.items| && Contents(r) == [t] + Contents(d)
  {
    var cap, d := |r.items|, Dequeued(r).1;
    WrappedIsModulo(r.read, 1, cap);
    forall k | 0 <= k < d.count ensures Contents(d)[k] == Contents(r)[k + 1] {
      assert Wrapped(d.read, k, cap) == Wrapped(r.read, k + 1, cap);
    }
  }

  class TaskList {
    var items: array<Task>
    var count: nat
    var writeCursor: nat
    var readCursor: nat
    var capacity: nat

    ghost predicate Valid()
      reads this, items
    {
      capacity == items.Length && RingOk(View())
    }

    ghost function View(): Ring
      reads this, items
    {
      Ring(items[..], readCursor, writeCursor, count)
    }

    constructor (size: nat)
      requires 0 < size
      ensures Valid() && fresh(items) && View() == EmptyRing(size)
    {
      capacity := size;
      writeCursor, count, readCursor := 0, 0, 0;
      items := new Task[size](_ => ZERO_TASK);
      new;
      assert items[..] == EmptyRing(size).items;
    }

    method Enqueue(task: Task)
      requires Valid() && count < capacity
      modifies this, items
      ensures Valid() && items == old(items) && View() == Enqueued(old(View()), task)
      ensures Contents(View()) == Contents(old(View())) + [task]
    {
      EnqueuedAppends(View(), task);
      items[writeCursor] := task;
      writeCursor := (writeCursor + 1) % capacity;
      count := count + 1;
    }

    method Dequeue() returns (task: Task)
      requires Valid()
      modifies this
      ensures Valid() && items == old(items) && (task, View()) == Dequeued(old(View()))
      ensures if old(count) == 0 then Contents(View()) == [] else Contents(old(View())) == [task] + Contents(View())
    {
      if count == 0 {
        return ZERO_TASK;
      }
      DequeuedTakes(View());
      task := items[readCursor];
      readCursor := (readCursor + 1) % capacity;
      count := count - 1;
    }
  }
}
