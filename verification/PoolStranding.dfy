/** Which lists of tasks can leave a call asleep, or a task in the ring, until an endless task returns. */
module PoolStranding {
  import opened Basics
  import opened TaskRing
  import opened PoolSteps
  import opened PoolSafety
  import opened PoolProgress
  import opened PoolRuns

  // ---- what a stalled pool costs ----

  lemma {:induction false} SumAtMost<T>(xs: seq<T>, f: T -> nat, g: T -> nat)
    requires forall i :: 0 <= i < |xs| ==> f(xs[i]) <= g(xs[i])
    ensures Sum(xs, f) <= Sum(xs, g)
  {
    if xs != [] {
      SumAtMost(xs[..|xs| - 1], f, g);
    }
  }

  lemma {:induction false} AcceptedAtMost(producers: seq<Producer>, tasks: seq<Task>, f: Task -> nat)
    requires |producers| == |tasks| && forall p :: 0 <= p < |tasks| ==> producers[p].task == tasks[p]
    ensures Sum(producers, Accepted(f)) <= Sum(tasks, f)
    decreases |tasks|
  {
    if tasks != [] {
      AcceptedAtMost(producers[..|tasks| - 1], tasks[..|tasks| - 1], f);
    }
  }

  /** What is queued, in hand and skipped weighs no more than all tasks together. */
  lemma {:induction false} WithinTasks(n: nat, tasks: seq<Task>, waits: bool, s: State, f: Task -> nat)
    requires 0 < n && Reachable(n, tasks, waits, s)
    ensures Sound(s, n, tasks)
    ensures Sum(Contents(s.sh.ring), f) + Sum(s.phases, InHand(f)) + Sum(s.skipped, f) <= Sum(tasks, f)
  {
    ReachableIsSound(n, tasks, waits, s, f);
    SumJoined(s.dequeued, Contents(s.sh.ring), f);
    AcceptedAtMost(s.producers, tasks, f);
  }

  /** Nobody is about to wake a sleeper of a stalled pool. */
  lemma {:induction false} StalledSums(s: State)
    requires Shape(s) && Stalled(s)
    ensures Sum(s.phases, IsReady) == 0 && Sum(s.producers, MustSignal) == 0 && Sum(s.producers, IsWoken) == 0
    ensures WakeupsOwed(s) && s.sh.ring.count > 0 ==> forall w :: 0 <= w < |s.phases| ==> s.phases[w].Executing?
    ensures forall w :: 0 <= w < |s.phases| ==>
              s.phases[w] == Waiting || (s.phases[w].Executing? && s.phases[w].task.attr == InfiniteProc)
  {
    forall w | 0 <= w < |s.phases|
      ensures s.phases[w] == Waiting || (s.phases[w].Executing? && s.phases[w].task.attr == InfiniteProc)
    {
      StalledWorkers(s, w);
    }
    forall p | 0 <= p < |s.producers| ensures s.producers[p].call == Blocked || s.producers[p].call == Done {
      StalledCalls(s, p);
    }
    SumZero(s.phases, IsReady);
    SumZero(s.producers, MustSignal);
    SumZero(s.producers, IsWoken);
    SumPositive(s.phases, IsWaiting);
  }

  /** A pool that stalls with a task queued has an endless task in each of at least `n` threads. */
  lemma {:induction false} StalledWithQueue(n: nat, tasks: seq<Task>, waits: bool, s: State)
    requires 0 < n && Reachable(n, tasks, waits, s) && Shape(s) && Stalled(s) && s.sh.ring.count > 0
    ensures n <= Sum(tasks, IsEndless) && n < |tasks|
  {
    WithinTasks(n, tasks, waits, s, IsEndless);
    WithinTasks(n, tasks, waits, s, One);
    StalledSums(s);
    forall w | 0 <= w < |s.phases| ensures Endless(s.phases[w].task) {
      assert PhaseKnown(s.phases[w], tasks);
    }
    SumConstant(s.phases, InHand(IsEndless), 1);
    SumConstant(s.phases, InHand(One), 1);
    SumConstant(tasks, One, 1);
    SumConstant(Contents(s.sh.ring), One, 1);
  }

  /** A pool that stalls with a caller blocked has, for each cell of its ring, an endless task or one
      without a procedure. */
  lemma {:induction false} StalledWithCaller(n: nat, tasks: seq<Task>, waits: bool, s: State)
    requires 0 < n && Reachable(n, tasks, waits, s) && Shape(s) && Stalled(s) && Sum(s.producers, IsBlocked) > 0
    ensures n <= Sum(tasks, NotPlain) && n < |tasks|
  {
    WithinTasks(n, tasks, waits, s, NotPlain);
    if s.sh.ring.count > 0 {
      StalledWithQueue(n, tasks, waits, s);
      SumAtMost(tasks, IsEndless, NotPlain);
    } else {
      StalledSums(s);
      SumAtMost(s.phases, IsBusy, InHand(NotPlain));
      SumConstant(s.skipped, NotPlain, 1);
    }
  }

  lemma {:induction false} SkippedAtMost(n: nat, tasks: seq<Task>, waits: bool, s: State)
    requires 0 < n && Reachable(n, tasks, waits, s)
    ensures Sound(s, n, tasks) && |s.skipped| <= Sum(tasks, LacksProc)
  {
    WithinTasks(n, tasks, waits, s, LacksProc);
    SumConstant(s.skipped, LacksProc, 1);
  }

  // ---- the call that waits ----

  /** The waiter looks while the last task is queued, and that task is endless. */
  lemma {:induction false} SleepThroughLast(n: nat, tasks: seq<Task>, s: State, w: nat, t: Task) returns (r: State)
    requires Found(n, tasks, true, s) && Due(s, n, tasks, w, t) && Endless(t)
    requires s.waiter == NotBegun && forall p :: 0 <= p < |s.producers| ==> s.producers[p].call == Done
    ensures Found(n, tasks, true, r) && r.sh.ring.count == 0 && Rested(r)
    ensures r.producers == s.producers && r.waiter == Asleep
  {
    var asleep := LookLast(n, tasks, true, s);
    var held := TakeOldest(n, tasks, true, asleep, w);
    r := StartHeld(n, tasks, true, held, w);
  }

  /** With an endless task the pool reaches a state in which the waiter sleeps although every call has
      returned, the ring is empty, and no worker will finish a task. */
  lemma {:induction false} WaiterStranded(n: nat, tasks: seq<Task>, x: nat) returns (r: State)
    requires 0 < n && x < |tasks| && Endless(tasks[x])
    ensures Reachable(n, tasks, true, r) && Stalled(r) && r.waiter == Asleep && !WaiterServed(r)
    ensures forall p :: 0 <= p < |r.producers| ==> r.producers[p].call == Done
  {
    var s, w := QueueAfterOthers(n, tasks, true, x, {x});
    r := SleepThroughLast(n, tasks, s, w, tasks[x]);
    r := Rest(n, tasks, true, r);
    AtRestIsStalled(r);
    SumZero(r.phases, WillSettle);
  }

  /** In a pool of fewer threads than a 32-bit counter holds, `Wait` is served in every reachable state if
      and only if no task is endless; and a state in which it sleeps until an endless task returns is
      reachable if and only if some task is endless. */
  lemma {:induction false} WaiterServedIff(n: nat, tasks: seq<Task>)
    requires 0 < n < U32
    ensures (forall s :: Reachable(n, tasks, true, s) ==> WaiterServed(s)) <==> forall t :: t in tasks ==> !Endless(t)
    ensures (exists s :: Reachable(n, tasks, true, s) && Stalled(s) && s.waiter == Asleep)
       <==> exists t :: t in tasks && Endless(t)
  {
    if t :| t in tasks && Endless(t) {
      var x: nat :| x < |tasks| && tasks[x] == t;
      var r := WaiterStranded(n, tasks, x);
    } else {
      forall s | Reachable(n, tasks, true, s) ensures WaiterServed(s) && !(Stalled(s) && s.waiter == Asleep) {
        ReturningServes(n, tasks, s);
      }
    }
  }

  lemma {:induction false} ReturningServes(n: nat, tasks: seq<Task>, s: State)
    requires 0 < n < U32 && Reachable(n, tasks, true, s) && forall t :: t in tasks ==> !Endless(t)
    ensures WaiterServed(s) && !(Stalled(s) && s.waiter == Asleep)
  {
    var start := Initial(n, tasks, true);
    var steps :| IsRun(start, steps) && End(start, steps) == s;
    ReturningInitially(n, tasks, true);
    RunStaysReturning(start, steps, n, tasks);
    ReachableIsSound(n, tasks, true, s, One);
    if Stalled(s) {
      StalledSums(s);
      forall w | 0 <= w < |s.phases| ensures s.phases[w] == Waiting {
        assert PhaseKnown(s.phases[w], tasks);
      }
      SumZero(s.phases, WillSettle);
    }
  }

  // ---- a wait that is too short ----

  /** `Wait` has returned with every task added, although a worker has taken one that it is still to run. */
  ghost predicate Early(s: State) {
    && s.waiter == Returned && s.sh.ring.count == 0 && s.sh.normal == 0
    && (forall p :: 0 <= p < |s.producers| ==> s.producers[p].call == Done)
    && exists w :: 0 <= w < |s.phases| && StillToRun(s.phases[w])
  }

  predicate StillToRun(ph: Phase) {
    (ph.Held? || ph.Marked?) && ph.task.hasProc
  }

  /** `Wait` can return early if and only if there is a task to run, however many threads there are. */
  lemma {:induction false} EarlyReturnIff(n: nat, tasks: seq<Task>)
    requires 0 < n
    ensures (exists s :: Reachable(n, tasks, true, s) && Early(s)) <==> exists t :: t in tasks && t.hasProc
  {
    if s :| Reachable(n, tasks, true, s) && Early(s) {
      ReachableIsSound(n, tasks, true, s, One);
      var w :| 0 <= w < |s.phases| && StillToRun(s.phases[w]);
      assert PhaseKnown(s.phases[w], tasks);
    }
    if t :| t in tasks && t.hasProc {
      var x: nat :| x < |tasks| && tasks[x] == t;
      var r := ReturnEarly(n, tasks, x);
    }
  }

  lemma {:induction false} ReturnEarly(n: nat, tasks: seq<Task>, x: nat) returns (r: State)
    requires 0 < n && x < |tasks| && tasks[x].hasProc
    ensures Reachable(n, tasks, true, r) && Early(r)
  {
    var s, w := QueueAfterOthers(n, tasks, true, x, {x});
    r := TakeOldest(n, tasks, true, s, w);
    r := StepTo(n, tasks, true, r, Check);
    assert StillToRun(r.phases[w]);
  }

  // ---- a queued task that starves ----

  ghost predicate Starved(s: State) {
    && Stalled(s) && 0 < s.sh.ring.count && s.waiter != NotBegun
    && forall p :: 0 <= p < |s.producers| ==> s.producers[p].call == Done
  }

  /** All but two tasks are dealt with, and the endless one of the two is queued for the last free worker. */
  lemma {:induction false} LastFree(n: nat, tasks: seq<Task>, waits: bool, x: nat, y: nat)
    returns (s: State, w: nat)
    requires 0 < n && x < |tasks| && y < |tasks| && x != y && Endless(tasks[x])
    requires n + IsEndless(tasks[y]) <= Sum(tasks, IsEndless)
    ensures Found(n, tasks, waits, s) && Due(s, n, tasks, w, tasks[x]) && CallIs(s, y, Start)
    ensures s.waiter == if waits then NotBegun else Returned
    ensures forall p :: 0 <= p < |s.producers| && p != y ==> s.producers[p].call == Done
    ensures forall v :: 0 <= v < |s.phases| && v != w ==> s.phases[v].Executing?
  {
    s, w := QueueAfterOthers(n, tasks, waits, x, {x, y});
    OnlyOneToCome(s.producers, y, IsEndless);
    assert s.producers[y].task == tasks[y];
    OthersRunEndless(s.phases, w);
  }

  /** A worker holds the endless one while the other is added. */
  lemma {:induction false} StarveLast(n: nat, tasks: seq<Task>, waits: bool, x: nat, y: nat) returns (r: State)
    requires 0 < n && x < |tasks| && y < |tasks| && x != y && Endless(tasks[x])
    requires n + IsEndless(tasks[y]) <= Sum(tasks, IsEndless)
    ensures Reachable(n, tasks, waits, r) && Starved(r)
  {
    var s, w := LastFree(n, tasks, waits, x, y);
    r := AddBehindHeld(n, tasks, waits, s, w, tasks[x], y);
    AllEndless(s.phases, w, tasks[x]);
    r := LookLast(n, tasks, waits, r);
    AtRestIsStalled(r);
  }

  lemma {:induction false} AllEndless(phases: seq<Phase>, w: nat, t: Task)
    requires w < |phases| && Endless(t)
    requires forall v :: 0 <= v < |phases| ==> Resting(phases[v]) && (v != w ==> phases[v].Executing?)
    ensures var r := phases[w := Executing(t)]; forall v :: 0 <= v < |r| ==> RunsEndless(r[v])
  {
  }

  /** A pool can stall with a task in its ring, even one whose call and all others have returned, if and
      only if the tasks are more than the threads it was made with and at least as many of them as threads
      are endless. */
  lemma {:induction false} StarvedIff(n: nat, tasks: seq<Task>, waits: bool)
    requires 0 < n
    ensures (exists s :: Reachable(n, tasks, waits, s) && Stalled(s) && 0 < s.sh.ring.count)
       <==> n < |tasks| && n <= Sum(tasks, IsEndless)
    ensures (exists s :: Reachable(n, tasks, waits, s) && Starved(s))
       <==> n < |tasks| && n <= Sum(tasks, IsEndless)
  {
    if s :| Reachable(n, tasks, waits, s) && Stalled(s) && 0 < s.sh.ring.count {
      ReachableIsSound(n, tasks, waits, s, One);
      StalledWithQueue(n, tasks, waits, s);
    }
    if n < |tasks| && n <= Sum(tasks, IsEndless) {
      var s: State;
      if y: nat :| y < |tasks| && !Endless(tasks[y]) {
        SumPositive(tasks, IsEndless);
        var x: nat :| x < |tasks| && IsEndless(tasks[x]) > 0;
        s := StarveLast(n, tasks, waits, x, y);
      } else {
        SumConstant(tasks, IsEndless, 1);
        s := StarveLast(n, tasks, waits, 0, 1);
      }
      ReachableIsSound(n, tasks, waits, s, One);
      assert Starved(s);
    }
  }

  // ---- callers that stay blocked ----

  lemma {:induction false} CallersStranded(n: nat, tasks: seq<Task>, waits: bool, bad: Task -> nat, x: nat)
    returns (r: State)
    requires 0 < n < |tasks| && Bad(bad) && n <= Sum(tasks, bad) && x < |tasks| && bad(tasks[x]) == 1
    ensures Reachable(n, tasks, waits, r) && ReachedPromptly(n, tasks, waits, r)
    ensures Stalled(r) && Sum(r.producers, IsBlocked) > 0
    ensures r.waiter == if waits && Endless(tasks[x]) then Asleep else Returned
    ensures (forall t: Task :: bad(t) == 1 ==> !t.hasProc) ==> Stuck(r) && !RoomComes(r)
  {
    var s := FullOfBad(n, tasks, waits, bad, x);
    s := Drain(n, tasks, waits, s, bad, tasks[x]);
    r := Rest(n, tasks, waits, s);
    AtRestIsStalled(r);
    SumZero(r.producers, IsWoken);
    if forall t: Task :: bad(t) == 1 ==> !t.hasProc {
      assert forall w :: 0 <= w < |r.phases| ==> s.phases[w] == Ready;
      SumZero(r.phases, IsBusy);
    }
  }

  /** Blocked callers are owed room in every reachable state if and only if the tasks are no more than the
      threads the pool was made with, or fewer of them than threads lack a procedure. Otherwise the pool can
      come to rest, whatever returns, with a caller blocked. */
  lemma {:induction false} RoomComesIff(n: nat, tasks: seq<Task>, waits: bool)
    requires 0 < n
    ensures (forall s :: Reachable(n, tasks, waits, s) ==> RoomComes(s))
       <==> |tasks| <= n || Sum(tasks, LacksProc) < n
    ensures (exists s :: Reachable(n, tasks, waits, s) && Stuck(s) && Sum(s.producers, IsBlocked) > 0)
       <==> n < |tasks| && n <= Sum(tasks, LacksProc)
  {
    if n < |tasks| && n <= Sum(tasks, LacksProc) {
      SumPositive(tasks, LacksProc);
      var x: nat :| x < |tasks| && LacksProc(tasks[x]) > 0;
      var r := CallersStranded(n, tasks, waits, LacksProc, x);
    } else {
      forall s | Reachable(n, tasks, waits, s)
        ensures RoomComes(s) && !(Stuck(s) && Sum(s.producers, IsBlocked) > 0)
      {
        RoomIsOwed(n, tasks, waits, s);
      }
    }
  }

  lemma {:induction false} RoomIsOwed(n: nat, tasks: seq<Task>, waits: bool, s: State)
    requires 0 < n && Reachable(n, tasks, waits, s)
    requires |tasks| <= n || Sum(tasks, LacksProc) < n
    ensures RoomComes(s) && !(Stuck(s) && Sum(s.producers, IsBlocked) > 0)
  {
    SkippedAtMost(n, tasks, waits, s);
    if Stuck(s) {
      StalledSums(s);
      forall w | 0 <= w < |s.phases| ensures s.phases[w] == Waiting {
        StuckWorkersWait(s, w);
      }
      SumZero(s.phases, IsBusy);
    }
  }

  /** Everything that was to be done is done: every call has returned, every worker waits for more, and the
      tasks executed are those with a procedure, each as often as it was added. */
  ghost predicate Drained(s: State, tasks: seq<Task>) {
    && s.sh.ring.count == 0 && s.waiter == Returned
    && (forall p :: 0 <= p < |s.producers| ==> s.producers[p].call == Done)
    && (forall w :: 0 <= w < |s.phases| ==> s.phases[w] == Waiting)
    && forall t: Task :: multiset(s.finished)[t] == if t.hasProc then multiset(tasks)[t] else 0
  }

  lemma {:induction false} RestIsDrained(n: nat, tasks: seq<Task>, waits: bool, steps: seq<Step>)
    requires 0 < n < U32 && (forall t :: t in tasks ==> !Endless(t)) && IsRun(Initial(n, tasks, waits), steps)
    requires |tasks| <= n || Sum(tasks, LacksProc) < n
    requires Stuck(End(Initial(n, tasks, waits), steps))
    ensures Drained(End(Initial(n, tasks, waits), steps), tasks)
  {
    var start := Initial(n, tasks, waits);
    var e := End(start, steps);
    ReturningInitially(n, tasks, waits);
    RunStaysReturning(start, steps, n, tasks);
    WakeupsNeverLost(n, tasks, waits, steps);
    RoomIsOwed(n, tasks, waits, e);
    StuckIsDrained(e, n, tasks);
    forall t: Task ensures multiset(e.finished)[t] == if t.hasProc then multiset(tasks)[t] else 0 {
      TasksConserved(n, tasks, waits, steps, Same(t));
      StuckHasExecuted(e, n, tasks, t);
    }
  }

  /** In a pool without endless tasks: every run without spurious wake-ups that cannot step is drained, if and
      only if the tasks are no more than the threads, or fewer of them than threads lack a procedure. */
  lemma {:induction false} DrainedIff(n: nat, tasks: seq<Task>, waits: bool)
    requires 0 < n < U32 && forall t :: t in tasks ==> !Endless(t)
    ensures (forall s :: ReachedPromptly(n, tasks, waits, s) && Stuck(s) ==> Drained(s, tasks))
       <==> |tasks| <= n || Sum(tasks, LacksProc) < n
  {
    if |tasks| <= n || Sum(tasks, LacksProc) < n {
      forall s | ReachedPromptly(n, tasks, waits, s) && Stuck(s) ensures Drained(s, tasks) {
        var start := Initial(n, tasks, waits);
        var steps :| IsRun(start, steps) && Prompt(steps) && End(start, steps) == s;
        RestIsDrained(n, tasks, waits, steps);
      }
    } else {
      SumPositive(tasks, LacksProc);
      var x: nat :| x < |tasks| && LacksProc(tasks[x]) > 0;
      var r := CallersStranded(n, tasks, waits, LacksProc, x);
      SumPositive(r.producers, IsBlocked);
    }
  }

  /** A pool can stall with a caller blocked if and only if the tasks are more than the threads it was made
      with and at least as many of them as threads are endless or without a procedure. */
  lemma {:induction false} CallerStrandedIff(n: nat, tasks: seq<Task>, waits: bool)
    requires 0 < n
    ensures (exists s :: Reachable(n, tasks, waits, s) && Stalled(s) && Sum(s.producers, IsBlocked) > 0)
       <==> n < |tasks| && n <= Sum(tasks, NotPlain)
  {
    if s :| Reachable(n, tasks, waits, s) && Stalled(s) && Sum(s.producers, IsBlocked) > 0 {
      ReachableIsSound(n, tasks, waits, s, One);
      StalledWithCaller(n, tasks, waits, s);
    }
    if n < |tasks| && n <= Sum(tasks, NotPlain) {
      var x := SomeNotPlain(tasks);
      var r := CallersStranded(n, tasks, waits, NotPlain, x);
    }
  }

  /** The waiter can be asleep at the same time if and only if, besides, one of the tasks is endless. */
  lemma {:induction false} BothStrandedIff(n: nat, tasks: seq<Task>)
    requires 0 < n < U32
    ensures (exists s :: && Reachable(n, tasks, true, s) && Stalled(s) && Sum(s.producers, IsBlocked) > 0
                         && s.waiter == Asleep)
       <==> n < |tasks| && n <= Sum(tasks, NotPlain) && exists t :: t in tasks && Endless(t)
  {
    CallerStrandedIff(n, tasks, true);
    WaiterServedIff(n, tasks);
    if n < |tasks| && n <= Sum(tasks, NotPlain) {
      var x := SomeNotPlain(tasks);
      var r := CallersStranded(n, tasks, true, NotPlain, x);
    }
  }

  /** A task that is endless, if there is one, and otherwise one without a procedure. */
  lemma {:induction false} SomeNotPlain(tasks: seq<Task>) returns (x: nat)
    requires 0 < Sum(tasks, NotPlain)
    ensures x < |tasks| && !Plain(tasks[x]) && ((exists t :: t in tasks && Endless(t)) ==> Endless(tasks[x]))
  {
    SumPositive(tasks, NotPlain);
    if t :| t in tasks && Endless(t) {
      x :| x < |tasks| && tasks[x] == t;
    } else {
      x :| x < |tasks| && NotPlain(tasks[x]) > 0;
    }
  }
}
