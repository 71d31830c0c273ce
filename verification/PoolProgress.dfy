/** Every run of the pool ends, and with tasks that return it ends with every task executed. */
module PoolProgress {
  import opened Basics
  import opened TaskRing
  import opened PoolSteps
  import opened PoolSafety

  // ---- every run is short ----

  function PhaseRank(ph: Phase): nat {
    match ph
    case Waiting => 0
    case Ready => 1
    case Post => 3
    case Executing(_) => 5
    case Marked(_) => 6
    case Held(_) => 7
  }

  function CallRank(c: Producer): nat {
    match c.call
    case Start => 12
    case Woken => 11
    case Blocked => 10
    case NeedSignal => 2
    case Done => 0
  }

  function WaiterRank(w: Waiter): nat {
    match w
    case NotBegun => 2
    case Roused => 2
    case Asleep => 1
    case Returned => 0
  }

  function Rank(s: State): nat {
    Sum(s.phases, PhaseRank) + Sum(s.producers, CallRank) + 7 * s.sh.ring.count + WaiterRank(s.waiter)
  }

  /** What a step adds to the rank of the waiter. */
  function WaiterDelta(s: State, step: Step): int {
    match step
    case Check => (if s.sh.normal > 0 || s.sh.ring.count > 0 then 1 else 0) - WaiterRank(s.waiter)
    case Settle(_) => if s.sh.normal == 0 && s.waiter == Asleep then 1 else 0
    case SpuriousWaiter => 2 - WaiterRank(s.waiter)
    case _ => 0
  }

  lemma WaiterRanked(s: State, step: Step)
    requires Shape(s) && Enabled(s, step)
    ensures WaiterRank(Apply(s, step).waiter) == WaiterRank(s.waiter) + WaiterDelta(s, step)
  {
  }

  lemma DeltasFall(s: State, step: Step)
    requires Shape(s) && Enabled(s, step) && !Spurious(step)
    ensures PhaseDelta(s, step, PhaseRank) + CallDelta(s, step, CallRank) + 7 * QueueDelta(s, step)
            + WaiterDelta(s, step) < 0
  {
  }

  /** Every step but a spurious wake-up brings the pool closer to rest, whatever the tasks are and
      however many threads are added. */
  lemma RankFalls(s: State, step: Step)
    requires Shape(s) && Enabled(s, step) && !Spurious(step)
    ensures Rank(Apply(s, step)) < Rank(s)
  {
    PhaseSum(s, step, PhaseRank);
    CallSum(s, step, CallRank);
    QueueCount(s, step);
    WaiterRanked(s, step);
    DeltasFall(s, step);
  }

  ghost predicate Prompt(steps: seq<Step>) {
    forall i :: 0 <= i < |steps| ==> !Spurious(steps[i])
  }

  lemma {:induction false} RunShortens(s: State, steps: seq<Step>)
    requires Shape(s) && IsRun(s, steps) && Prompt(steps)
    ensures |steps| + Rank(End(s, steps)) <= Rank(s)
    decreases |steps|
  {
    if steps != [] {
      RankFalls(s, steps[0]);
      ShapeKept(s, steps[0]);
      RunShortens(Apply(s, steps[0]), steps[1..]);
    }
  }

  lemma {:induction false} SumConstant<T>(xs: seq<T>, weight: T -> nat, k: nat)
    requires forall i :: 0 <= i < |xs| ==> weight(xs[i]) == k
    ensures Sum(xs, weight) == k * |xs|
  {
    if xs != [] {
      SumConstant(xs[..|xs| - 1], weight, k);
    }
  }

  /** Without spurious wake-ups a run takes at most twelve steps for each call of `AddTask`, one for each
      thread, and two for a call of `Wait`. */
  lemma {:induction false} RunBound(n: nat, tasks: seq<Task>, waits: bool, steps: seq<Step>)
    requires 0 < n && IsRun(Initial(n, tasks, waits), steps) && Prompt(steps)
    ensures |steps| <= 12 * |tasks| + n + 2
  {
    var s := Initial(n, tasks, waits);
    SumConstant(s.phases, PhaseRank, 1);
    SumConstant(s.producers, CallRank, 12);
    RunShortens(s, steps);
  }

  // ---- the call that waits ----

  /** Workers that will still reach the section that can wake the waiter. */
  function WillSettle(ph: Phase): nat {
    if ph.Held? || ph.Marked? || ph == Post || (ph.Executing? && ph.task.attr == DefaultProc) then 1 else 0
  }

  /** While the waiter sleeps, a task is queued or a worker will still settle. */
  ghost predicate WaiterServed(s: State) {
    s.waiter == Asleep ==> s.sh.ring.count + Sum(s.phases, WillSettle) > 0
  }

  /** From a state with exact counters a step breaks it exactly when an infinite task is started by the
      last worker the waiter could wait for. */
  lemma WaiterServedKeptIff(s: State, step: Step)
    requires Shape(s) && Enabled(s, step) && Exact(s) && WaiterServed(s)
    ensures WaiterServed(Apply(s, step)) <==>
            !(&& step.Count? && s.phases[step.w].task.attr == InfiniteProc && s.waiter == Asleep
              && s.sh.ring.count + Sum(s.phases, WillSettle) == 1)
  {
    PhaseSum(s, step, WillSettle);
    QueueCount(s, step);
    DefaultsSettle(s.phases);
    if step.Settle? {
      PhaseSum(s, step, InDefault);
      DefaultsSettle(Apply(s, step).phases);
    }
    if step.Count? {
      SumAtLeast(s.phases, WillSettle, step.w);
    }
  }

  /** A worker that settles rouses a sleeping waiter unless a default task is counted; when it does, only
      queued tasks can send the waiter back to sleep. */
  lemma SettleRouses(s: State, w: nat)
    requires Shape(s) && Enabled(s, Settle(w)) && s.waiter == Asleep
    ensures var r := Apply(s, Settle(w));
      && (r.waiter == Asleep ==> 0 < s.sh.normal)
      && (r.waiter != Asleep ==> Enabled(r, Check) && (Apply(r, Check).waiter == Returned <==> s.sh.ring.count == 0))
  {
  }

  lemma {:induction false} DefaultsSettle(phases: seq<Phase>)
    ensures Sum(phases, InDefault) <= Sum(phases, WillSettle)
    decreases |phases|
  {
    if phases != [] {
      DefaultsSettle(phases[..|phases| - 1]);
    }
  }

  // ---- pools of tasks that return ----

  /** The invariant of a pool of `n` threads none of whose tasks is endless. */
  ghost predicate Returning(s: State, n: nat, tasks: seq<Task>) {
    && 0 < n == |s.phases| < U32
    && (forall t :: t in tasks ==> !Endless(t))
    && Fifo(s) && Known(s, tasks) && StatesTell(s) && Exact(s) && WaiterServed(s)
  }

  lemma ReturningKept(s: State, step: Step, n: nat, tasks: seq<Task>)
    requires Returning(s, n, tasks) && Enabled(s, step)
    ensures Returning(Apply(s, step), n, tasks)
  {
    FifoKept(s, step);
    KnownKept(s, step, tasks);
    StatesTellKept(s, step);
    assert PhaseKnown(s.phases[0], tasks) && s.sh.states[0] != Infinite;
    if step.Count? || step.Finish? {
      assert PhaseKnown(s.phases[step.w], tasks);
    }
    ExactKeptIff(s, step);
    WaiterServedKeptIff(s, step);
  }

  lemma ReturningInitially(n: nat, tasks: seq<Task>, waits: bool)
    requires 0 < n < U32 && forall t :: t in tasks ==> !Endless(t)
    ensures Returning(Initial(n, tasks, waits), n, tasks)
  {
    var s := Initial(n, tasks, waits);
    SumZero(s.phases, InDefault);
    SumZero(s.phases, InInfinite);
  }

  lemma {:induction false} RunStaysReturning(s: State, steps: seq<Step>, n: nat, tasks: seq<Task>)
    requires Returning(s, n, tasks) && IsRun(s, steps)
    ensures Returning(End(s, steps), n, tasks)
    decreases |steps|
  {
    if steps != [] {
      ReturningKept(s, steps[0], n, tasks);
      RunStaysReturning(Apply(s, steps[0]), steps[1..], n, tasks);
    }
  }

  /** Besides, no waiting worker and no blocked caller has been forgotten. */
  ghost predicate Orderly(s: State, n: nat, tasks: seq<Task>) {
    Returning(s, n, tasks) && WakeupsOwed(s) && RoomComes(s)
  }

  /** The invariant of a pool of `n` threads whose tasks all have a procedure that returns. */
  ghost predicate Good(s: State, n: nat, tasks: seq<Task>) {
    Orderly(s, n, tasks) && forall t :: t in tasks ==> Plain(t)
  }

  lemma GoodKept(s: State, step: Step, n: nat, tasks: seq<Task>)
    requires Good(s, n, tasks) && Enabled(s, step)
    ensures Good(Apply(s, step), n, tasks)
  {
    ReturningKept(s, step, n, tasks);
    WakeupsOwedKept(s, step);
    if step.Mark? {
      assert PhaseKnown(s.phases[step.w], tasks);
    }
    RoomComesKeptIff(s, step);
  }

  lemma GoodInitially(n: nat, tasks: seq<Task>, waits: bool)
    requires 0 < n < U32 && forall t :: t in tasks ==> Plain(t)
    ensures Good(Initial(n, tasks, waits), n, tasks)
  {
    var s := Initial(n, tasks, waits);
    ReturningInitially(n, tasks, waits);
    SumZero(s.phases, IsWaiting);
    SumZero(s.producers, IsBlocked);
  }

  lemma {:induction false} RunStaysGood(s: State, steps: seq<Step>, n: nat, tasks: seq<Task>)
    requires Good(s, n, tasks) && IsRun(s, steps)
    ensures Good(End(s, steps), n, tasks)
    decreases |steps|
  {
    if steps != [] {
      GoodKept(s, steps[0], n, tasks);
      RunStaysGood(Apply(s, steps[0]), steps[1..], n, tasks);
    }
  }

  // ---- at rest ----

  /** No thread can step of its own accord. */
  ghost predicate Stuck(s: State) {
    forall step: Step :: Enabled(s, step) ==> Spurious(step)
  }

  /** No thread can step of its own accord before a task that was to run forever returns. */
  ghost predicate Stalled(s: State) {
    forall step: Step :: Enabled(s, step) ==> Spurious(step) || InfiniteReturns(s, step)
  }

  lemma StalledWorkers(s: State, w: nat)
    requires Shape(s) && Stalled(s) && w < |s.phases|
    ensures s.phases[w] == Waiting || (s.phases[w].Executing? && s.phases[w].task.attr == InfiniteProc)
  {
    var freed := SomeBlocked(s);
    assert !Enabled(s, Take(w)) && !Enabled(s, Mark(w)) && !Enabled(s, Count(w)) && !Enabled(s, Settle(w));
    assert Enabled(s, Finish(w, freed)) ==> InfiniteReturns(s, Finish(w, freed));
  }

  lemma StuckWorkersWait(s: State, w: nat)
    requires Shape(s) && Stuck(s) && w < |s.phases|
    ensures s.phases[w] == Waiting
  {
    var freed := SomeBlocked(s);
    StalledWorkers(s, w);
    assert !Enabled(s, Finish(w, freed));
  }

  lemma SomeBlocked(s: State) returns (freed: Option<nat>)
    ensures WakesProducer(s, freed)
  {
    if p: nat :| p < |s.producers| && s.producers[p].call == Blocked {
      freed := Some(p);
    } else {
      freed := None;
    }
  }

  lemma SomeWaiting(s: State) returns (woken: Option<nat>)
    ensures WakesWorker(s, woken)
  {
    if w: nat :| w < |s.phases| && s.phases[w] == Waiting {
      woken := Some(w);
    } else {
      woken := None;
    }
  }

  lemma StalledCalls(s: State, p: nat)
    requires Shape(s) && Stalled(s) && p < |s.producers|
    ensures s.producers[p].call == Blocked || s.producers[p].call == Done
  {
    var woken := SomeWaiting(s);
    assert !Enabled(s, Enter(p)) && !Enabled(s, Retry(p)) && !Enabled(s, Signal(p, woken));
  }

  /** An orderly pool at rest is drained: the ring is empty, every call of `AddTask` and of `Wait` has
      returned, and every worker waits for more. */
  lemma StuckIsDrained(s: State, n: nat, tasks: seq<Task>)
    requires Orderly(s, n, tasks) && Stuck(s)
    ensures s.sh.ring.count == 0 && s.waiter == Returned
    ensures forall p :: 0 <= p < |s.producers| ==> s.producers[p].call == Done
    ensures forall w :: 0 <= w < |s.phases| ==> s.phases[w] == Waiting
  {
    forall w | 0 <= w < |s.phases| ensures s.phases[w] == Waiting {
      StuckWorkersWait(s, w);
    }
    forall p | 0 <= p < |s.producers| ensures s.producers[p].call == Blocked || s.producers[p].call == Done {
      StalledCalls(s, p);
    }
    SumConstant(s.phases, IsWaiting, 1);
    SumZero(s.phases, IsReady);
    SumZero(s.phases, IsBusy);
    SumZero(s.phases, WillSettle);
    SumZero(s.producers, MustSignal);
    SumZero(s.producers, IsWoken);
    SumPositive(s.producers, IsBlocked);
    assert !Enabled(s, Check);
  }

  /** At rest each task with a procedure has been executed as often as it was added, and no other task. */
  lemma StuckHasExecuted(s: State, n: nat, tasks: seq<Task>, t: Task)
    requires Orderly(s, n, tasks) && Stuck(s) && Tallied(s, Same(t))
    ensures multiset(s.finished)[t] == if t.hasProc then multiset(tasks)[t] else 0
  {
    StuckIsDrained(s, n, tasks);
    SumZero(s.phases, InHand(Same(t)));
    SumJoined(s.dequeued, Contents(s.sh.ring), Same(t));
    AcceptedAll(s.producers, tasks, Same(t));
    SameCounts(s.finished, t);
    SameCounts(tasks, t);
    if t.hasProc {
      SumZero(s.skipped, Same(t));
    } else {
      SumZero(s.finished, Same(t));
    }
  }

  lemma {:induction false} AcceptedAll(producers: seq<Producer>, tasks: seq<Task>, f: Task -> nat)
    requires |producers| == |tasks|
    requires forall p :: 0 <= p < |tasks| ==> producers[p] == Producer(tasks[p], Done)
    ensures Sum(producers, Accepted(f)) == Sum(tasks, f)
    decreases |tasks|
  {
    if tasks != [] {
      AcceptedAll(producers[..|tasks| - 1], tasks[..|tasks| - 1], f);
    }
  }

  /** Every run of a pool of tasks that return, without spurious wake-ups, is of linear length, and when
      no thread can step any more every task has been executed exactly as often as it was added, the
      ring is empty, and no call is blocked or asleep. */
  lemma EveryRunDrains(n: nat, tasks: seq<Task>, waits: bool, steps: seq<Step>)
    requires 0 < n < U32 && forall t :: t in tasks ==> Plain(t)
    requires IsRun(Initial(n, tasks, waits), steps) && Prompt(steps)
    ensures |steps| <= 12 * |tasks| + n + 2
    ensures var e := End(Initial(n, tasks, waits), steps);
      Stuck(e) ==>
        && multiset(e.finished) == multiset(tasks) && e.sh.ring.count == 0 && e.waiter == Returned
        && forall p :: 0 <= p < |e.producers| ==> e.producers[p].call == Done
  {
    var s := Initial(n, tasks, waits);
    RunBound(n, tasks, waits, steps);
    GoodInitially(n, tasks, waits);
    RunStaysGood(s, steps, n, tasks);
    var e := End(s, steps);
    if Stuck(e) {
      StuckIsDrained(e, n, tasks);
      forall t: Task ensures multiset(e.finished)[t] == multiset(tasks)[t] {
        TasksConserved(n, tasks, waits, steps, Same(t));
        StuckHasExecuted(e, n, tasks, t);
        assert t in multiset(tasks) ==> t in tasks;
      }
    }
  }

  /** So in a reachable state with a caller blocked, or the waiter asleep, some thread can step. */
  lemma SomeThreadSteps(n: nat, tasks: seq<Task>, waits: bool, steps: seq<Step>) returns (next: Step)
    requires 0 < n < U32 && forall t :: t in tasks ==> Plain(t)
    requires IsRun(Initial(n, tasks, waits), steps)
    requires var e := End(Initial(n, tasks, waits), steps);
      e.waiter != Returned || exists p :: 0 <= p < |e.producers| && e.producers[p].call != Done
    ensures Enabled(End(Initial(n, tasks, waits), steps), next) && !Spurious(next)
  {
    var s := Initial(n, tasks, waits);
    GoodInitially(n, tasks, waits);
    RunStaysGood(s, steps, n, tasks);
    var e := End(s, steps);
    if Stuck(e) {
      StuckIsDrained(e, n, tasks);
    }
    next :| Enabled(e, next) && !Spurious(next);
  }
}
