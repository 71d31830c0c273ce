/** What `VThreadPool_Wait` promises when it returns, and the window it leaves open. */
module PoolWaiting {
  import opened Basics
  import opened TaskRing
  import opened PoolSteps
  import opened PoolSafety
  import opened PoolProgress

  /** Counts the workers that have taken a task out of the ring and not yet counted it. */
  function IsTaken(ph: Phase): nat {
    if ph.Held? || ph.Marked? then 1 else 0
  }

  /** What the task of such a worker weighs. */
  function WeightTaken(ph: Phase, f: Task -> nat): nat {
    if ph.Held? || ph.Marked? then f(ph.task) else 0
  }

  function JustTaken(f: Task -> nat): Phase -> nat {
    (ph: Phase) => WeightTaken(ph, f)
  }

  /** What a task being run weighs. */
  function WeightRun(ph: Phase, f: Task -> nat): nat {
    if ph.Executing? then f(ph.task) else 0
  }

  function BeingRun(f: Task -> nat): Phase -> nat {
    (ph: Phase) => WeightRun(ph, f)
  }

  lemma {:induction false} TakenOrRun(phases: seq<Phase>, f: Task -> nat)
    ensures Sum(phases, InHand(f)) == Sum(phases, JustTaken(f)) + Sum(phases, BeingRun(f))
    decreases |phases|
  {
    if phases != [] {
      TakenOrRun(phases[..|phases| - 1], f);
    }
  }

  /** When the waiter's check lets it return from exact counters, the ring is empty, only endless tasks are
      being run, and every other accepted task is finished or skipped, or just taken and not yet counted. */
  lemma WaitReturns(s: State, tasks: seq<Task>, f: Task -> nat)
    requires Fifo(s) && Known(s, tasks) && Exact(s) && Tallied(s, f)
    requires Enabled(s, Check) && Apply(s, Check).waiter == Returned
    ensures Contents(s.sh.ring) == []
    ensures forall w :: 0 <= w < |s.phases| && s.phases[w].Executing? ==> Endless(s.phases[w].task)
    ensures Sum(s.producers, Accepted(f)) ==
            Sum(s.finished, f) + Sum(s.skipped, f) + Sum(s.phases, JustTaken(f)) + Sum(s.phases, BeingRun(f))
  {
    SumPositive(s.phases, InDefault);
    forall w | 0 <= w < |s.phases| && s.phases[w].Executing? ensures Endless(s.phases[w].task) {
      assert PhaseKnown(s.phases[w], tasks);
    }
    TakenOrRun(s.phases, f);
    assert s.dequeued == s.enqueued;
  }

  // ---- taking and counting in one section ----

  /** One round of a pool in which a worker takes a task, writes its state and counts the task without
      letting go of the lock: three of the steps at once. */
  ghost function Round(s: State, step: Step): (r: State)
    requires Shape(s) && Enabled(s, step)
    ensures Shape(r)
  {
    ShapeKept(s, step);
    var s1 := Apply(s, step);
    if step.Take? && s.sh.ring.count > 0 then
      ShapeKept(s1, Mark(step.w));
      var s2 := Apply(s1, Mark(step.w));
      if s2.phases[step.w].Marked? then
        ShapeKept(s2, Count(step.w));
        Apply(s2, Count(step.w))
      else s2
    else s1
  }

  /** A round keeps what its steps keep, and leaves no task taken and uncounted. */
  lemma RoundKeeps(s: State, step: Step, n: nat, tasks: seq<Task>, f: Task -> nat)
    requires Returning(s, n, tasks) && Enabled(s, step) && Tallied(s, f)
    requires Sum(s.phases, IsTaken) == 0
    ensures var r := Round(s, step); Returning(r, n, tasks) && Tallied(r, f) && Sum(r.phases, IsTaken) == 0
  {
    TakesOne(s, step);
    ReturningKept(s, step, n, tasks);
    TalliedKept(s, step, f);
    if step.Take? && s.sh.ring.count > 0 {
      MarkAndCount(Apply(s, step), step.w, n, tasks, f);
    }
  }

  lemma MarkAndCount(s: State, w: nat, n: nat, tasks: seq<Task>, f: Task -> nat)
    requires Returning(s, n, tasks) && Enabled(s, Mark(w)) && Tallied(s, f) && Sum(s.phases, IsTaken) == 1
    ensures var m := Apply(s, Mark(w));
      && Shape(m)
      && var r := if m.phases[w].Marked? then Apply(m, Count(w)) else m;
         Returning(r, n, tasks) && Tallied(r, f) && Sum(r.phases, IsTaken) == 0
  {
    MarkTaken(s, w, n, tasks, f);
    if s.phases[w].task.hasProc {
      CountTaken(Apply(s, Mark(w)), w, n, tasks, f);
    }
  }

  lemma TakesOne(s: State, step: Step)
    requires Shape(s) && Enabled(s, step) && Sum(s.phases, IsTaken) == 0
    ensures Sum(Apply(s, step).phases, IsTaken) == if step.Take? && s.sh.ring.count > 0 then 1 else 0
  {
    SumPositive(s.phases, IsTaken);
    PhaseSum(s, step, IsTaken);
  }

  lemma MarkTaken(s: State, w: nat, n: nat, tasks: seq<Task>, f: Task -> nat)
    requires Returning(s, n, tasks) && Enabled(s, Mark(w)) && Tallied(s, f) && Sum(s.phases, IsTaken) == 1
    ensures var r := Apply(s, Mark(w));
      && Returning(r, n, tasks) && Tallied(r, f)
      && if s.phases[w].task.hasProc then Enabled(r, Count(w)) && Sum(r.phases, IsTaken) == 1
         else !r.phases[w].Marked? && Sum(r.phases, IsTaken) == 0
  {
    ReturningKept(s, Mark(w), n, tasks);
    TalliedKept(s, Mark(w), f);
    PhaseSum(s, Mark(w), IsTaken);
  }

  lemma CountTaken(s: State, w: nat, n: nat, tasks: seq<Task>, f: Task -> nat)
    requires Returning(s, n, tasks) && Enabled(s, Count(w)) && Tallied(s, f) && Sum(s.phases, IsTaken) == 1
    ensures var r := Apply(s, Count(w)); Returning(r, n, tasks) && Tallied(r, f) && Sum(r.phases, IsTaken) == 0
  {
    ReturningKept(s, Count(w), n, tasks);
    TalliedKept(s, Count(w), f);
    PhaseSum(s, Count(w), IsTaken);
  }

  ghost predicate Rounds(s: State, steps: seq<Step>)
    requires Shape(s)
    decreases |steps|
  {
    steps == [] || (Enabled(s, steps[0]) && Rounds(Round(s, steps[0]), steps[1..]))
  }

  ghost function RoundsEnd(s: State, steps: seq<Step>): (e: State)
    requires Shape(s) && Rounds(s, steps)
    ensures Shape(e)
    decreases |steps|
  {
    if steps == [] then s else RoundsEnd(Round(s, steps[0]), steps[1..])
  }

  lemma {:induction false} RoundsKeep(s: State, steps: seq<Step>, n: nat, tasks: seq<Task>, f: Task -> nat)
    requires Returning(s, n, tasks) && Tallied(s, f) && Sum(s.phases, IsTaken) == 0 && Rounds(s, steps)
    ensures var e := RoundsEnd(s, steps); Returning(e, n, tasks) && Tallied(e, f) && Sum(e.phases, IsTaken) == 0
    decreases |steps|
  {
    if steps != [] {
      RoundKeeps(s, steps[0], n, tasks, f);
      RoundsKeep(Round(s, steps[0]), steps[1..], n, tasks, f);
    }
  }

  /** With fused rounds the window is gone: whenever `Wait` returns, every accepted task is finished, or was
      skipped for want of a procedure. */
  lemma FusedWaitReturns(n: nat, tasks: seq<Task>, steps: seq<Step>, f: Task -> nat)
    requires 0 < n < U32 && forall t :: t in tasks ==> !Endless(t)
    requires Rounds(Initial(n, tasks, true), steps)
    requires var e := RoundsEnd(Initial(n, tasks, true), steps);
      Enabled(e, Check) && Apply(e, Check).waiter == Returned
    ensures var e := RoundsEnd(Initial(n, tasks, true), steps);
      && Contents(e.sh.ring) == []
      && Sum(e.producers, Accepted(f)) == Sum(e.finished, f) + Sum(e.skipped, f)
      && forall i :: 0 <= i < |e.skipped| ==> !e.skipped[i].hasProc
  {
    var s := Initial(n, tasks, true);
    ReturningInitially(n, tasks, true);
    SumZero(s.phases, IsTaken);
    TalliedInitially(n, tasks, true, f);
    RoundsKeep(s, steps, n, tasks, f);
    var e := RoundsEnd(s, steps);
    WaitReturns(e, tasks, f);
    forall w | 0 <= w < |e.phases| ensures !e.phases[w].Executing? {
      assert PhaseKnown(e.phases[w], tasks);
    }
    SumPositive(e.phases, IsTaken);
    SumZero(e.phases, JustTaken(f));
    SumZero(e.phases, BeingRun(f));
  }

  // ---- and in sections apart ----

  /** Without endless tasks no infinite task returns. */
  lemma {:induction false} NoneToReturn(s: State, steps: seq<Step>, n: nat, tasks: seq<Task>)
    requires Returning(s, n, tasks) && IsRun(s, steps)
    ensures NoneReturns(s, steps)
    decreases |steps|
  {
    if steps != [] {
      if steps[0].Finish? {
        assert PhaseKnown(s.phases[steps[0].w], tasks);
      }
      ReturningKept(s, steps[0], n, tasks);
      NoneToReturn(Apply(s, steps[0]), steps[1..], n, tasks);
    }
  }

  /** What `Wait` may leave unfinished when it returns is exactly what is taken and not yet counted, and
      the endless tasks being run; for any tasks, as long as no infinite task returns and the threads are
      fewer than a 32-bit counter holds. */
  lemma RunWaitReturns(n: nat, tasks: seq<Task>, steps: seq<Step>, f: Task -> nat)
    requires 0 < n && IsRun(Initial(n, tasks, true), steps)
    requires |End(Initial(n, tasks, true), steps).phases| < U32
    requires NoneReturns(Initial(n, tasks, true), steps) || forall t :: t in tasks ==> !Endless(t)
    requires var e := End(Initial(n, tasks, true), steps);
      Enabled(e, Check) && Apply(e, Check).waiter == Returned
    ensures var e := End(Initial(n, tasks, true), steps);
      && Contents(e.sh.ring) == []
      && Sum(e.producers, Accepted(f)) ==
         Sum(e.finished, f) + Sum(e.skipped, f) + Sum(e.phases, JustTaken(f)) + Sum(e.phases, BeingRun(f))
      && (forall w :: 0 <= w < |e.phases| && e.phases[w].Executing? ==> Endless(e.phases[w].task))
      && forall i :: 0 <= i < |e.skipped| ==> !e.skipped[i].hasProc
  {
    var s := Initial(n, tasks, true);
    if forall t :: t in tasks ==> !Endless(t) {
      WorkersGrow(s, steps);
      ReturningInitially(n, tasks, true);
      NoneToReturn(s, steps, n, tasks);
    }
    CountersInEveryRun(n, tasks, true, steps);
    TasksConserved(n, tasks, true, steps, f);
    WaitReturns(End(s, steps), tasks, f);
  }
}
