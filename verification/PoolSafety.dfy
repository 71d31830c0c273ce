/** What every step of the pool keeps: task wake-ups, progress of blocked callers, exact counters,
    first-in first-out order and conservation of tasks. */
module PoolSafety {
  import opened Basics
  import opened TaskRing
  import opened PoolSteps

  // ---- weights: which workers and calls are counted ----

  function IsReady(ph: Phase): nat { if ph == Ready then 1 else 0 }
  function IsWaiting(ph: Phase): nat { if ph == Waiting then 1 else 0 }
  function IsBusy(ph: Phase): nat { if HasTask(ph) then 1 else 0 }
  function InDefault(ph: Phase): nat { if ph.Executing? && ph.task.attr == DefaultProc then 1 else 0 }
  function InInfinite(ph: Phase): nat { if ph.Executing? && ph.task.attr == InfiniteProc then 1 else 0 }

  function IsBlocked(c: Producer): nat { if c.call == Blocked then 1 else 0 }
  function IsWoken(c: Producer): nat { if c.call == Woken then 1 else 0 }
  function MustSignal(c: Producer): nat { if c.call == NeedSignal then 1 else 0 }

  // ---- order of tasks ----

  /** Tasks leave the ring in the order they entered it. */
  ghost predicate Fifo(s: State) {
    Shape(s) && s.dequeued + Contents(s.sh.ring) == s.enqueued
  }

  lemma {:induction false} FifoKept(s: State, step: Step)
    requires Fifo(s) && Enabled(s, step)
    ensures Fifo(Apply(s, step))
  {
    ShapeKept(s, step);
    match step
    case Enter(p) => PutKeepsFifo(WithThread(s), p);
    case Retry(p) => PutKeepsFifo(s, p);
    case Take(w) =>
      if s.sh.ring.count > 0 {
        DequeuedTakes(s.sh.ring);
        var (t, d) := Dequeued(s.sh.ring);
        assert s.dequeued + ([t] + Contents(d)) == s.dequeued + [t] + Contents(d);
      }
    case _ =>
  }

  lemma PutKeepsFifo(s: State, p: nat)
    requires Fifo(s) && p < |s.producers|
    ensures Shape(Put(s, p)) ==> Fifo(Put(s, p))
  {
    if s.sh.ring.count < |s.sh.ring.items| {
      var t := s.producers[p].task;
      EnqueuedAppends(s.sh.ring, t);
      assert s.dequeued + Contents(s.sh.ring) + [t] == s.dequeued + (Contents(s.sh.ring) + [t]);
    }
  }

  // ---- conservation of tasks ----

  predicate HasTask(ph: Phase) {
    ph.Held? || ph.Marked? || ph.Executing?
  }

  /** What the task of a worker weighs; a worker without one weighs nothing. */
  function WeightInHand(ph: Phase, f: Task -> nat): nat {
    if HasTask(ph) then f(ph.task) else 0
  }

  function InHand(f: Task -> nat): Phase -> nat {
    (ph: Phase) => WeightInHand(ph, f)
  }

  /** What the task of a call weighs once it has been enqueued. */
  function WeightAccepted(c: Producer, f: Task -> nat): nat {
    if c.call == NeedSignal || c.call == Done then f(c.task) else 0
  }

  function Accepted(f: Task -> nat): Producer -> nat {
    (c: Producer) => WeightAccepted(c, f)
  }

  /** However tasks are weighed, what was accepted is among the enqueued, and what was dequeued is with
      a worker, finished, or skipped for want of a procedure. */
  ghost predicate Tallied(s: State, f: Task -> nat) {
    && Sum(s.enqueued, f) == Sum(s.producers, Accepted(f))
    && Sum(s.dequeued, f) == Sum(s.phases, InHand(f)) + Sum(s.finished, f) + Sum(s.skipped, f)
  }

  /** What a step adds to the weight of the enqueued tasks. */
  function EnqueuedDelta(s: State, step: Step, f: Task -> nat): int
    requires Enabled(s, step)
  {
    if (step.Enter? || step.Retry?) && PutCall(s) == NeedSignal then f(s.producers[step.p].task) else 0
  }

  lemma EnqueuedSum(s: State, step: Step, f: Task -> nat)
    requires Shape(s) && Enabled(s, step)
    ensures Sum(Apply(s, step).enqueued, f) == Sum(s.enqueued, f) + EnqueuedDelta(s, step, f)
  {
    if step.Enter? || step.Retry? {
      SumAppended(s.enqueued, s.producers[step.p].task, f);
    }
  }

  lemma EnqueuedCalls(s: State, step: Step, f: Task -> nat)
    requires Enabled(s, step)
    ensures CallDelta(s, step, Accepted(f)) == EnqueuedDelta(s, step, f)
  {
  }

  lemma EnqueuedTallied(s: State, step: Step, f: Task -> nat)
    requires Shape(s) && Enabled(s, step) && Sum(s.enqueued, f) == Sum(s.producers, Accepted(f))
    ensures Sum(Apply(s, step).enqueued, f) == Sum(Apply(s, step).producers, Accepted(f))
  {
    CallSum(s, step, Accepted(f));
    EnqueuedSum(s, step, f);
    EnqueuedCalls(s, step, f);
  }

  /** A worker skips a task without a procedure. */
  predicate Skips(s: State, step: Step)
    requires Enabled(s, step)
  {
    step.Mark? && !s.phases[step.w].task.hasProc
  }

  /** The weight of the task a step takes out of the ring. */
  function DequeuedDelta(s: State, step: Step, f: Task -> nat): int
    requires Shape(s) && Enabled(s, step)
  {
    if step.Take? && s.sh.ring.count > 0 then f(Dequeued(s.sh.ring).0) else 0
  }

  function FinishedDelta(s: State, step: Step, f: Task -> nat): int
    requires Enabled(s, step)
  {
    if step.Finish? then f(s.phases[step.w].task) else 0
  }

  function SkippedDelta(s: State, step: Step, f: Task -> nat): int
    requires Enabled(s, step)
  {
    if Skips(s, step) then f(s.phases[step.w].task) else 0
  }

  lemma DequeuedSum(s: State, step: Step, f: Task -> nat)
    requires Shape(s) && Enabled(s, step)
    ensures Sum(Apply(s, step).dequeued, f) == Sum(s.dequeued, f) + DequeuedDelta(s, step, f)
  {
    SumAppended(s.dequeued, Dequeued(s.sh.ring).0, f);
  }

  lemma FinishedSum(s: State, step: Step, f: Task -> nat)
    requires Shape(s) && Enabled(s, step)
    ensures Sum(Apply(s, step).finished, f) == Sum(s.finished, f) + FinishedDelta(s, step, f)
  {
    if step.Finish? {
      SumAppended(s.finished, s.phases[step.w].task, f);
    }
  }

  lemma SkippedSum(s: State, step: Step, f: Task -> nat)
    requires Shape(s) && Enabled(s, step)
    ensures Sum(Apply(s, step).skipped, f) == Sum(s.skipped, f) + SkippedDelta(s, step, f)
  {
    if step.Mark? {
      SumAppended(s.skipped, s.phases[step.w].task, f);
    }
  }

  lemma CarriedPhases(s: State, step: Step, f: Task -> nat)
    requires Shape(s) && Enabled(s, step)
    ensures PhaseDelta(s, step, InHand(f)) ==
            DequeuedDelta(s, step, f) - FinishedDelta(s, step, f) - SkippedDelta(s, step, f)
  {
  }

  lemma TalliedKept(s: State, step: Step, f: Task -> nat)
    requires Shape(s) && Enabled(s, step) && Tallied(s, f)
    ensures Tallied(Apply(s, step), f)
  {
    EnqueuedTallied(s, step, f);
    PhaseSum(s, step, InHand(f));
    CarriedPhases(s, step, f);
    DequeuedSum(s, step, f);
    FinishedSum(s, step, f);
    SkippedSum(s, step, f);
  }

  /** The calls want to add the tasks, and only those are enqueued. */
  ghost predicate CallsKnown(s: State, tasks: seq<Task>) {
    && |s.producers| == |tasks|
    && (forall p :: 0 <= p < |tasks| ==> s.producers[p].task == tasks[p])
    && (forall i :: 0 <= i < |s.enqueued| ==> s.enqueued[i] in tasks)
  }

  /** A worker marks and runs only tasks with a procedure. */
  predicate PhaseKnown(ph: Phase, tasks: seq<Task>) {
    HasTask(ph) ==> ph.task in tasks && (ph.Held? || ph.task.hasProc)
  }

  ghost predicate Known(s: State, tasks: seq<Task>) {
    && CallsKnown(s, tasks)
    && (forall w :: 0 <= w < |s.phases| ==> PhaseKnown(s.phases[w], tasks))
    && (forall i :: 0 <= i < |s.skipped| ==> s.skipped[i] in tasks && !s.skipped[i].hasProc)
    && (forall i :: 0 <= i < |s.finished| ==> s.finished[i].hasProc)
  }

  lemma OldestWasEnqueued(s: State)
    requires Fifo(s) && s.sh.ring.count > 0
    ensures exists i :: 0 <= i < |s.enqueued| && s.enqueued[i] == Dequeued(s.sh.ring).0
  {
    DequeuedTakes(s.sh.ring);
    assert s.enqueued[|s.dequeued|] == Contents(s.sh.ring)[0];
  }

  lemma CallsKnownKept(s: State, step: Step, tasks: seq<Task>)
    requires Shape(s) && Enabled(s, step) && CallsKnown(s, tasks)
    ensures CallsKnown(Apply(s, step), tasks)
  {
  }

  lemma PhasesKnownKept(s: State, step: Step, tasks: seq<Task>)
    requires Fifo(s) && Enabled(s, step) && Known(s, tasks)
    ensures forall w :: 0 <= w < |Apply(s, step).phases| ==> PhaseKnown(Apply(s, step).phases[w], tasks)
  {
    if step.Take? && s.sh.ring.count > 0 {
      OldestWasEnqueued(s);
    }
  }

  lemma KnownKept(s: State, step: Step, tasks: seq<Task>)
    requires Fifo(s) && Enabled(s, step) && Known(s, tasks)
    ensures Known(Apply(s, step), tasks)
  {
    CallsKnownKept(s, step, tasks);
    PhasesKnownKept(s, step, tasks);
  }

  lemma SumZero<T>(xs: seq<T>, weight: T -> nat)
    requires forall i :: 0 <= i < |xs| ==> weight(xs[i]) == 0
    ensures Sum(xs, weight) == 0
  {
    SumPositive(xs, weight);
  }

  lemma {:induction false} SumAtLeast<T>(xs: seq<T>, weight: T -> nat, i: nat)
    requires i < |xs|
    ensures weight(xs[i]) <= Sum(xs, weight)
    decreases |xs|
  {
    var n := |xs| - 1;
    if i < n {
      SumAtLeast(xs[..n], weight, i);
    }
  }

  lemma {:induction false} SumJoined<T>(a: seq<T>, b: seq<T>, weight: T -> nat)
    ensures Sum(a + b, weight) == Sum(a, weight) + Sum(b, weight)
    decreases |b|
  {
    if b == [] {
      assert a + b == a;
    } else {
      SumJoined(a, b[..|b| - 1], weight);
      assert (a + b)[..|a + b| - 1] == a + b[..|b| - 1];
    }
  }

  lemma TalliedInitially(n: nat, tasks: seq<Task>, waits: bool, f: Task -> nat)
    requires 0 < n
    ensures Tallied(Initial(n, tasks, waits), f)
  {
    SumZero(Initial(n, tasks, waits).phases, InHand(f));
    SumZero(Initial(n, tasks, waits).producers, Accepted(f));
  }

  lemma {:induction false} RunConserves(s: State, steps: seq<Step>, tasks: seq<Task>, f: Task -> nat)
    requires Fifo(s) && IsRun(s, steps) && Tallied(s, f) && Known(s, tasks)
    ensures Fifo(End(s, steps)) && Tallied(End(s, steps), f) && Known(End(s, steps), tasks)
    decreases |steps|
  {
    if steps != [] {
      FifoKept(s, steps[0]);
      TalliedKept(s, steps[0], f);
      KnownKept(s, steps[0], tasks);
      RunConserves(Apply(s, steps[0]), steps[1..], tasks, f);
    }
  }

  /** In every reachable state tasks have left the ring in the order they entered it, and however tasks
      are weighed, the accepted ones weigh as much as those in the ring, with a worker, finished and
      skipped together; only tasks without a procedure are skipped. */
  lemma TasksConserved(n: nat, tasks: seq<Task>, waits: bool, steps: seq<Step>, f: Task -> nat)
    requires 0 < n && IsRun(Initial(n, tasks, waits), steps)
    ensures var e := End(Initial(n, tasks, waits), steps);
      && Fifo(e) && e.dequeued <= e.enqueued && Tallied(e, f) && Known(e, tasks)
      && Sum(e.producers, Accepted(f)) == Sum(Contents(e.sh.ring), f) + Sum(e.phases, InHand(f))
                                          + Sum(e.finished, f) + Sum(e.skipped, f)
  {
    var s := Initial(n, tasks, waits);
    TalliedInitially(n, tasks, waits, f);
    RunConserves(s, steps, tasks, f);
    var e := End(s, steps);
    SumJoined(e.dequeued, Contents(e.sh.ring), f);
  }

  /** Weighs one task; so sums count its occurrences. */
  function Same(t: Task): Task -> nat {
    (x: Task) => if x == t then 1 else 0
  }

  lemma {:induction false} SameCounts(xs: seq<Task>, t: Task)
    ensures Sum(xs, Same(t)) == multiset(xs)[t]
    decreases |xs|
  {
    if xs != [] {
      SameCounts(xs[..|xs| - 1], t);
      assert xs == xs[..|xs| - 1] + [xs[|xs| - 1]];
    }
  }

  /** So each accepted task is in exactly one place: as often as a task was accepted it is in the ring,
      with a worker, finished or skipped. */
  lemma TaskInOnePlace(n: nat, tasks: seq<Task>, waits: bool, steps: seq<Step>, t: Task)
    requires 0 < n && IsRun(Initial(n, tasks, waits), steps)
    ensures var e := End(Initial(n, tasks, waits), steps);
      && RingOk(e.sh.ring)
      && Sum(e.producers, Accepted(Same(t))) == multiset(Contents(e.sh.ring))[t] + Sum(e.phases, InHand(Same(t)))
                                                + multiset(e.finished)[t] + multiset(e.skipped)[t]
      && (t.hasProc ==> multiset(e.skipped)[t] == 0)
  {
    TasksConserved(n, tasks, waits, steps, Same(t));
    var e := End(Initial(n, tasks, waits), steps);
    SameCounts(Contents(e.sh.ring), t);
    SameCounts(e.finished, t);
    SameCounts(e.skipped, t);
    if t.hasProc {
      SumZero(e.skipped, Same(t));
    }
  }

  // ---- no lost task wake-up ----

  /** While a worker waits for a task, the queued tasks are at most the calls that have yet to signal
      and the workers about to look. */
  ghost predicate WakeupsOwed(s: State) {
    Sum(s.phases, IsWaiting) > 0 ==>
      s.sh.ring.count <= Sum(s.producers, MustSignal) + Sum(s.phases, IsReady)
  }

  /** Kept by every step: infinite tasks, tasks without a procedure and spurious wake-ups included. */
  lemma WakeupsOwedKept(s: State, step: Step)
    requires Shape(s) && Enabled(s, step) && WakeupsOwed(s)
    ensures WakeupsOwed(Apply(s, step))
  {
    PhaseSum(s, step, IsWaiting);
    PhaseSum(s, step, IsReady);
    CallSum(s, step, MustSignal);
    QueueCount(s, step);
    if step.Signal? && step.woken.None? {
      SumPositive(s.phases, IsWaiting);
    }
  }

  /** In every reachable state: no wake-up is lost, although callers signal after the lock is released. */
  lemma WakeupsNeverLost(n: nat, tasks: seq<Task>, waits: bool, steps: seq<Step>)
    requires 0 < n && IsRun(Initial(n, tasks, waits), steps)
    ensures WakeupsOwed(End(Initial(n, tasks, waits), steps))
  {
    SumZero(Initial(n, tasks, waits).phases, IsWaiting);
    RunOwesWakeups(Initial(n, tasks, waits), steps);
  }

  lemma {:induction false} RunOwesWakeups(s: State, steps: seq<Step>)
    requires Shape(s) && WakeupsOwed(s) && IsRun(s, steps)
    ensures WakeupsOwed(End(s, steps))
    decreases |steps|
  {
    if steps != [] {
      ShapeKept(s, steps[0]);
      WakeupsOwedKept(s, steps[0]);
      RunOwesWakeups(Apply(s, steps[0]), steps[1..]);
    }
  }

  // ---- no blocked caller is forgotten ----

  /** While a caller is blocked on a full ring, a task is queued, or a worker has one in hand, or a
      caller has been woken. */
  ghost predicate RoomComes(s: State) {
    Sum(s.producers, IsBlocked) > 0 ==>
      s.sh.ring.count + Sum(s.phases, IsBusy) + Sum(s.producers, IsWoken) > 0
  }

  /** A step breaks it exactly when it skips the last task there is while callers are blocked: skipping
      signals none of them. */
  lemma RoomComesKeptIff(s: State, step: Step)
    requires Shape(s) && Enabled(s, step) && RoomComes(s)
    ensures RoomComes(Apply(s, step)) <==>
            !(&& Skips(s, step) && Sum(s.producers, IsBlocked) > 0
              && s.sh.ring.count + Sum(s.phases, IsBusy) + Sum(s.producers, IsWoken) == 1)
  {
    PhaseSum(s, step, IsBusy);
    CallSum(s, step, IsBlocked);
    CallSum(s, step, IsWoken);
    QueueCount(s, step);
    if step.Finish? && step.freed.None? {
      SumPositive(s.producers, IsBlocked);
    }
    if step.Mark? {
      SumAtLeast(s.phases, IsBusy, step.w);
    }
  }

  /** Counts the calls that have not yet enqueued their task. */
  function IsPending(c: Producer): nat { if c.call == NeedSignal || c.call == Done then 0 else 1 }

  /** The ring has `n` cells, there are at least `n` threads, and a task is queued only by a call; so
      callers block only when more than `n` tasks are to be added. */
  ghost predicate Sized(s: State, n: nat) {
    && |s.sh.ring.items| == n <= |s.phases|
    && s.sh.ring.count + Sum(s.producers, IsPending) <= |s.producers|
    && (Sum(s.producers, IsBlocked) > 0 ==> n < |s.producers|)
  }

  /** While callers are blocked, for each of the `n` cells there is a queued task, a busy worker, a woken
      caller or a skipped task. */
  ghost predicate RoomOwed(s: State, n: nat) {
    Sum(s.producers, IsBlocked) > 0 ==>
      n <= s.sh.ring.count + Sum(s.phases, IsBusy) + Sum(s.producers, IsWoken) + |s.skipped|
  }

  lemma SizedKept(s: State, step: Step, n: nat)
    requires Shape(s) && Enabled(s, step) && Sized(s, n)
    ensures Sized(Apply(s, step), n)
  {
    CallSum(s, step, IsPending);
    QueueCount(s, step);
    BlockedKept(s, step, n);
  }

  lemma BlockedKept(s: State, step: Step, n: nat)
    requires Shape(s) && Enabled(s, step) && Sized(s, n)
    ensures Sum(Apply(s, step).producers, IsBlocked) > 0 ==> n < |s.producers|
  {
    CallSum(s, step, IsBlocked);
    if step.Enter? || step.Retry? {
      SumAtLeast(s.producers, IsPending, step.p);
    }
  }

  lemma RoomOwedKept(s: State, step: Step, n: nat)
    requires Shape(s) && Enabled(s, step) && Sized(s, n) && RoomOwed(s, n)
    ensures RoomOwed(Apply(s, step), n)
  {
    PhaseSum(s, step, IsBusy);
    CallSum(s, step, IsBlocked);
    CallSum(s, step, IsWoken);
    QueueCount(s, step);
    if step.Finish? && step.freed.None? {
      SumPositive(s.producers, IsBlocked);
    }
  }

  lemma {:induction false} RunOwesRoom(s: State, steps: seq<Step>, n: nat)
    requires Shape(s) && Sized(s, n) && RoomOwed(s, n) && IsRun(s, steps)
    ensures Sized(End(s, steps), n) && RoomOwed(End(s, steps), n)
    decreases |steps|
  {
    if steps != [] {
      ShapeKept(s, steps[0]);
      SizedKept(s, steps[0], n);
      RoomOwedKept(s, steps[0], n);
      RunOwesRoom(Apply(s, steps[0]), steps[1..], n);
    }
  }

  lemma RoomAlwaysOwed(n: nat, tasks: seq<Task>, waits: bool, steps: seq<Step>)
    requires 0 < n && IsRun(Initial(n, tasks, waits), steps)
    ensures Sized(End(Initial(n, tasks, waits), steps), n) && RoomOwed(End(Initial(n, tasks, waits), steps), n)
  {
    var s := Initial(n, tasks, waits);
    SumZero(s.producers, IsBlocked);
    SumBounded(s.producers, IsPending, 1);
    RunOwesRoom(s, steps, n);
  }

  // ---- threads that run infinite tasks ----

  predicate OnInfinite(ph: Phase) {
    (ph.Marked? || ph.Executing?) && ph.task.attr == InfiniteProc
  }

  /** The state a thread is in: that of the task it has marked or runs, otherwise idle. */
  function StateOf(ph: Phase): ThreadState {
    if !(ph.Marked? || ph.Executing?) then Idle
    else if ph.task.attr == DefaultProc then ThreadState.Running
    else Infinite
  }

  ghost predicate StatesTell(s: State) {
    |s.phases| == |s.sh.states| && forall w :: 0 <= w < |s.phases| ==> s.sh.states[w] == StateOf(s.phases[w])
  }

  lemma StatesTellKept(s: State, step: Step)
    requires Shape(s) && Enabled(s, step) && StatesTell(s)
    ensures StatesTell(Apply(s, step))
  {
    var s' := Apply(s, step);
    forall w | 0 <= w < |s'.phases| ensures s'.sh.states[w] == StateOf(s'.phases[w]) {}
  }

  lemma {:induction false} RunTellsStates(s: State, steps: seq<Step>)
    requires Shape(s) && StatesTell(s) && IsRun(s, steps)
    ensures StatesTell(End(s, steps))
    decreases |steps|
  {
    if steps != [] {
      ShapeKept(s, steps[0]);
      StatesTellKept(s, steps[0]);
      RunTellsStates(Apply(s, steps[0]), steps[1..]);
    }
  }

  /** In every reachable state each thread's state is that of the task it has marked or runs, or idle. */
  lemma StatesInEveryRun(n: nat, tasks: seq<Task>, waits: bool, steps: seq<Step>)
    requires 0 < n && IsRun(Initial(n, tasks, waits), steps)
    ensures StatesTell(End(Initial(n, tasks, waits), steps))
  {
    RunTellsStates(Initial(n, tasks, waits), steps);
  }

  /** In every reachable state a call of `AddTask` starts a thread exactly when every thread has marked
      or runs an infinite task, and in any case leaves one that does not. A worker that holds an infinite
      task it has not yet marked counts among the latter, although it will not serve another. */
  lemma ThreadAddedIff(n: nat, tasks: seq<Task>, waits: bool, steps: seq<Step>, p: nat)
    requires 0 < n && IsRun(Initial(n, tasks, waits), steps)
    requires Enabled(End(Initial(n, tasks, waits), steps), Enter(p))
    ensures var e := End(Initial(n, tasks, waits), steps);
      var e' := Apply(e, Enter(p));
      && (|e'.phases| == |e.phases| + 1 <==> forall w :: 0 <= w < |e.phases| ==> OnInfinite(e.phases[w]))
      && (|e'.phases| == |e.phases| + 1 || e'.phases == e.phases)
      && exists w :: 0 <= w < |e'.phases| && !OnInfinite(e'.phases[w])
  {
    RunTellsStates(Initial(n, tasks, waits), steps);
    var e := End(Initial(n, tasks, waits), steps);
    var e' := Apply(e, Enter(p));
    if AllInfinite(e.sh.states) {
      assert !OnInfinite(e'.phases[|e.phases|]);
    } else {
      var w :| 0 <= w < |e.sh.states| && e.sh.states[w] != Infinite;
      assert !OnInfinite(e'.phases[w]);
    }
  }

  // ---- exact counters ----

  /** The counters are the numbers of workers that run default and infinite tasks. */
  ghost predicate Exact(s: State) {
    s.sh.normal == Sum(s.phases, InDefault) && s.sh.infinite == Sum(s.phases, InInfinite)
  }

  /** A task that was to run forever returns. */
  predicate InfiniteReturns(s: State, step: Step)
    requires Enabled(s, step)
  {
    step.Finish? && s.phases[step.w].task.attr == InfiniteProc
  }

  /** With fewer workers than a 32-bit counter holds, a step keeps the counters exact exactly when it is
      not the return of an infinite task: that one is counted out of the wrong counter. */
  lemma ExactKeptIff(s: State, step: Step)
    requires Shape(s) && Enabled(s, step) && Exact(s) && |s.phases| < U32
    ensures Exact(Apply(s, step)) <==> !InfiniteReturns(s, step)
  {
    NormalKeptIff(s, step);
    if !InfiniteReturns(s, step) {
      InfiniteKept(s, step);
    }
  }

  lemma NormalKeptIff(s: State, step: Step)
    requires Shape(s) && Enabled(s, step) && s.sh.normal == Sum(s.phases, InDefault) && |s.phases| < U32
    ensures Apply(s, step).sh.normal == Sum(Apply(s, step).phases, InDefault) <==> !InfiniteReturns(s, step)
  {
    PhaseSum(s, step, InDefault);
    if step.Count? {
      SumBelow(s.phases, InDefault, step.w);
    } else if step.Finish? {
      SumAtLeast(s.phases, InDefault, step.w);
    }
  }

  lemma InfiniteKept(s: State, step: Step)
    requires Shape(s) && Enabled(s, step) && s.sh.infinite == Sum(s.phases, InInfinite) && |s.phases| < U32
    requires !InfiniteReturns(s, step)
    ensures Apply(s, step).sh.infinite == Sum(Apply(s, step).phases, InInfinite)
  {
    PhaseSum(s, step, InInfinite);
    if step.Count? {
      SumBelow(s.phases, InInfinite, step.w);
    }
  }

  /** A worker that is not counted leaves the sum below the number of workers. */
  lemma SumBelow(phases: seq<Phase>, f: Phase -> nat, w: nat)
    requires w < |phases| && f(phases[w]) == 0 && forall ph :: f(ph) <= 1
    ensures Sum(phases, f) < |phases|
  {
    SumWithout(phases, f, w);
  }

  lemma {:induction false} SumWithout(phases: seq<Phase>, f: Phase -> nat, w: nat)
    requires w < |phases| && forall ph :: f(ph) <= 1
    ensures Sum(phases, f) <= |phases| - 1 + f(phases[w])
    decreases |phases|
  {
    var n := |phases| - 1;
    if w == n {
      SumBounded(phases[..n], f, 1);
    } else {
      SumWithout(phases[..n], f, w);
    }
  }


  /** In every state reached by a run in which no infinite task returns, with fewer workers than a
      32-bit counter holds, the counters are exact, so the next default task that finishes is counted
      out without wrap-around. */
  lemma {:induction false} CountersInEveryRun(n: nat, tasks: seq<Task>, waits: bool, steps: seq<Step>)
    requires 0 < n && IsRun(Initial(n, tasks, waits), steps) && NoneReturns(Initial(n, tasks, waits), steps)
    requires |End(Initial(n, tasks, waits), steps).phases| < U32
    ensures var e := End(Initial(n, tasks, waits), steps);
      && Exact(e)
      && forall w: nat, freed: Option<nat> ::
           Enabled(e, Finish(w, freed)) && e.phases[w].task.attr == DefaultProc ==> 0 < e.sh.normal
  {
    var s := Initial(n, tasks, waits);
    SumZero(s.phases, InDefault);
    SumZero(s.phases, InInfinite);
    CountersExact(s, steps);
    var e := End(s, steps);
    forall w: nat, freed: Option<nat> | Enabled(e, Finish(w, freed)) && e.phases[w].task.attr == DefaultProc
      ensures 0 < e.sh.normal
    {
      SumAtLeast(e.phases, InDefault, w);
    }
  }

  lemma {:induction false} CountersExact(s: State, steps: seq<Step>)
    requires Shape(s) && IsRun(s, steps) && Exact(s) && |End(s, steps).phases| < U32 && NoneReturns(s, steps)
    ensures Exact(End(s, steps)) && |s.phases| <= |End(s, steps).phases|
    decreases |steps|
  {
    if steps != [] {
      var s' := Apply(s, steps[0]);
      ShapeKept(s, steps[0]);
      WorkersGrow(s', steps[1..]);
      assert |s.phases| <= |s'.phases|;
      ExactKeptIff(s, steps[0]);
      CountersExact(s', steps[1..]);
    }
  }

  ghost predicate NoneReturns(s: State, steps: seq<Step>)
    requires Shape(s) && IsRun(s, steps)
    decreases |steps|
  {
    steps == [] ||
    (!InfiniteReturns(s, steps[0]) &&
     (ShapeKept(s, steps[0]); NoneReturns(Apply(s, steps[0]), steps[1..])))
  }

  lemma {:induction false} WorkersGrow(s: State, steps: seq<Step>)
    requires Shape(s) && IsRun(s, steps)
    ensures |s.phases| <= |End(s, steps).phases|
    decreases |steps|
  {
    if steps != [] {
      ShapeKept(s, steps[0]);
      assert |s.phases| <= |Apply(s, steps[0]).phases|;
      WorkersGrow(Apply(s, steps[0]), steps[1..]);
    }
  }
}
