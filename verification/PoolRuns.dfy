/** Runs of the pool put together from pieces: tasks served one after the other, a ring filled and drained. */
module PoolRuns {
  import opened Basics
  import opened TaskRing
  import opened PoolSteps
  import opened PoolSafety
  import opened PoolProgress

  function LacksProc(t: Task): nat { if t.hasProc then 0 else 1 }
  function IsEndless(t: Task): nat { if Endless(t) then 1 else 0 }
  function NotPlain(t: Task): nat { if Plain(t) then 0 else 1 }
  function One(t: Task): nat { 1 }

  // ---- runs, piece by piece ----

  /** What all reachable states share. */
  ghost predicate Sound(s: State, n: nat, tasks: seq<Task>) {
    Fifo(s) && Known(s, tasks) && StatesTell(s) && WakeupsOwed(s) && Sized(s, n) && RoomOwed(s, n)
  }

  lemma {:induction false} ReachableIsSound(n: nat, tasks: seq<Task>, waits: bool, s: State, f: Task -> nat)
    requires 0 < n && Reachable(n, tasks, waits, s)
    ensures Sound(s, n, tasks) && Tallied(s, f)
  {
    var start := Initial(n, tasks, waits);
    var steps :| IsRun(start, steps) && End(start, steps) == s;
    TasksConserved(n, tasks, waits, steps, f);
    WakeupsNeverLost(n, tasks, waits, steps);
    RunTellsStates(start, steps);
    RoomAlwaysOwed(n, tasks, waits, steps);
  }

  /** A state reached without spurious wake-ups. */
  ghost predicate ReachedPromptly(n: nat, tasks: seq<Task>, waits: bool, s: State)
    requires 0 < n
  {
    exists steps: seq<Step> ::
      IsRun(Initial(n, tasks, waits), steps) && Prompt(steps) && End(Initial(n, tasks, waits), steps) == s
  }

  ghost predicate Found(n: nat, tasks: seq<Task>, waits: bool, s: State) {
    0 < n && Reachable(n, tasks, waits, s) && ReachedPromptly(n, tasks, waits, s) && Sound(s, n, tasks)
  }

  lemma {:induction false} FoundStart(n: nat, tasks: seq<Task>, waits: bool)
    requires 0 < n
    ensures Found(n, tasks, waits, Initial(n, tasks, waits))
  {
    var s := Initial(n, tasks, waits);
    assert IsRun(s, []) && Prompt([]) && End(s, []) == s;
    ReachableIsSound(n, tasks, waits, s, One);
  }

  predicate RunsEndless(ph: Phase) {
    ph.Executing? && Endless(ph.task)
  }

  /** A worker that is free, or runs an endless task. */
  predicate Resting(ph: Phase) {
    ph == Ready || RunsEndless(ph)
  }

  /** No worker waits for a task, and none has one that it will finish. */
  ghost predicate Rested(s: State) {
    s.sh.normal == 0 && forall w :: 0 <= w < |s.phases| ==> Resting(s.phases[w])
  }

  lemma {:induction false} StepTo(n: nat, tasks: seq<Task>, waits: bool, s: State, step: Step) returns (r: State)
    requires Found(n, tasks, waits, s) && Enabled(s, step) && !Spurious(step)
    ensures r == Apply(s, step) && Found(n, tasks, waits, r)
  {
    var start := Initial(n, tasks, waits);
    var steps :| IsRun(start, steps) && Prompt(steps) && End(start, steps) == s;
    RunExtended(start, steps, step);
    r := Apply(s, step);
    assert Prompt(steps + [step]);
    ReachableIsSound(n, tasks, waits, r, One);
  }

  /** A thread that has not marked an infinite task keeps others from being started. */
  lemma {:induction false} NotAllInfinite(n: nat, tasks: seq<Task>, s: State, w: nat)
    requires Sound(s, n, tasks) && w < |s.phases| && !OnInfinite(s.phases[w])
    ensures !AllInfinite(s.sh.states)
  {
    assert s.sh.states[w] != Infinite;
  }

  lemma {:induction false} EnterRoom(n: nat, tasks: seq<Task>, waits: bool, s: State, p: nat) returns (r: State)
    requires Found(n, tasks, waits, s) && CallIs(s, p, Start) && s.sh.ring.count < n
    ensures Found(n, tasks, waits, r)
    ensures r.phases == if AllInfinite(s.sh.states) then s.phases + [Ready] else s.phases
    ensures r.producers == s.producers[p := Producer(tasks[p], NeedSignal)]
    ensures Contents(r.sh.ring) == Contents(s.sh.ring) + [tasks[p]]
    ensures r.sh.normal == s.sh.normal && r.waiter == s.waiter
  {
    EnqueuedAppends(s.sh.ring, tasks[p]);
    r := StepTo(n, tasks, waits, s, Enter(p));
  }

  /** A call adds its task and returns. */
  lemma {:induction false} Queue(n: nat, tasks: seq<Task>, waits: bool, s: State, p: nat) returns (r: State)
    requires Found(n, tasks, waits, s) && CallIs(s, p, Start) && s.sh.ring.count < n
    requires forall w :: 0 <= w < |s.phases| ==> s.phases[w] != Waiting
    ensures Found(n, tasks, waits, r)
    ensures r.phases == if AllInfinite(s.sh.states) then s.phases + [Ready] else s.phases
    ensures r.producers == s.producers[p := Producer(tasks[p], Done)]
    ensures Contents(r.sh.ring) == Contents(s.sh.ring) + [tasks[p]]
    ensures r.sh.normal == s.sh.normal && r.waiter == s.waiter
  {
    r := EnterRoom(n, tasks, waits, s, p);
    r := StepTo(n, tasks, waits, r, Signal(p, None));
  }

  /** A free worker takes the oldest task. */
  lemma {:induction false} TakeOldest(n: nat, tasks: seq<Task>, waits: bool, s: State, w: nat) returns (r: State)
    requires Found(n, tasks, waits, s)
    requires w < |s.phases| && s.phases[w] == Ready && 0 < s.sh.ring.count
    ensures Found(n, tasks, waits, r)
    ensures var q := Contents(s.sh.ring);
      r.phases == s.phases[w := Held(q[0])] && Contents(r.sh.ring) == q[1..]
    ensures r.producers == s.producers && r.sh.normal == s.sh.normal && r.waiter == s.waiter
  {
    DequeuedTakes(s.sh.ring);
    r := StepTo(n, tasks, waits, s, Take(w));
  }

  /** A worker marks and counts the task it holds. */
  lemma {:induction false} StartHeld(n: nat, tasks: seq<Task>, waits: bool, s: State, w: nat) returns (r: State)
    requires Found(n, tasks, waits, s) && s.sh.normal == 0
    requires w < |s.phases| && s.phases[w].Held? && s.phases[w].task.hasProc
    ensures Found(n, tasks, waits, r) && r.phases == s.phases[w := Executing(s.phases[w].task)]
    ensures r.sh.ring == s.sh.ring && r.producers == s.producers && r.waiter == s.waiter
    ensures r.sh.normal == if s.phases[w].task.attr == DefaultProc then 1 else 0
  {
    r := StepTo(n, tasks, waits, s, Mark(w));
    assert r.phases == s.phases[w := Marked(s.phases[w].task)];
    r := StepTo(n, tasks, waits, r, Count(w));
  }

  /** A worker skips the task it holds, and goes through the section that signals the waiter. */
  lemma {:induction false} SkipHeld(n: nat, tasks: seq<Task>, waits: bool, s: State, w: nat) returns (r: State)
    requires Found(n, tasks, waits, s)
    requires w < |s.phases| && s.phases[w].Held? && !s.phases[w].task.hasProc && s.sh.normal == 0
    ensures Found(n, tasks, waits, r)
    ensures r.phases == s.phases[w := Ready]
    ensures r.sh.ring == s.sh.ring
    ensures r.producers == s.producers && r.sh.normal == 0
    ensures r.waiter == if s.waiter == Asleep then Roused else s.waiter
  {
    r := StepTo(n, tasks, waits, s, Mark(w));
    r := StepTo(n, tasks, waits, r, Settle(w));
  }

  /** A worker runs the task it holds to its end; no caller is blocked and the waiter is not asleep. */
  lemma {:induction false} RunHeld(n: nat, tasks: seq<Task>, waits: bool, s: State, w: nat) returns (r: State)
    requires Found(n, tasks, waits, s)
    requires w < |s.phases| && s.phases[w].Held? && Plain(s.phases[w].task) && s.sh.normal == 0
    requires s.waiter != Asleep && forall p :: 0 <= p < |s.producers| ==> s.producers[p].call != Blocked
    ensures Found(n, tasks, waits, r)
    ensures r.phases == s.phases[w := Ready]
    ensures r.sh.ring == s.sh.ring
    ensures r.producers == s.producers && r.sh.normal == 0 && r.waiter == s.waiter
  {
    r := StartHeld(n, tasks, waits, s, w);
    r := StepTo(n, tasks, waits, r, Finish(w, None));
    r := StepTo(n, tasks, waits, r, Settle(w));
  }

  ghost predicate AtRest(s: State) {
    && (forall w :: 0 <= w < |s.phases| ==> s.phases[w] == Waiting || RunsEndless(s.phases[w]))
    && (forall p :: 0 <= p < |s.producers| ==> s.producers[p].call == Blocked || s.producers[p].call == Done)
    && (s.waiter == Asleep || s.waiter == Returned)
  }

  lemma {:induction false} AtRestIsStalled(s: State)
    requires AtRest(s)
    ensures Stalled(s)
    ensures (forall w :: 0 <= w < |s.phases| ==> s.phases[w] == Waiting) ==> Stuck(s)
  {
  }

  /** The free workers find the ring empty and wait. */
  lemma {:induction false} Rest(n: nat, tasks: seq<Task>, waits: bool, s: State) returns (r: State)
    requires Found(n, tasks, waits, s) && s.sh.ring.count == 0
    ensures Found(n, tasks, waits, r) && r.sh.ring.count == 0
    ensures |r.phases| == |s.phases|
    ensures forall w :: 0 <= w < |s.phases| ==> r.phases[w] == if s.phases[w] == Ready then Waiting else s.phases[w]
    ensures r.producers == s.producers && r.sh.normal == s.sh.normal && r.waiter == s.waiter
    decreases Sum(s.phases, IsReady)
  {
    r := s;
    if w: nat :| w < |s.phases| && s.phases[w] == Ready {
      SumUpdated(s.phases, w, Waiting, IsReady);
      r := StepTo(n, tasks, waits, s, Take(w));
      r := Rest(n, tasks, waits, r);
    }
  }

  // ---- serving tasks one after the other ----

  /** What a task weighs while its call has not begun. */
  function WeightToCome(c: Producer, f: Task -> nat): nat {
    if c.call == Start then f(c.task) else 0
  }

  function ToCome(f: Task -> nat): Producer -> nat {
    (c: Producer) => WeightToCome(c, f)
  }

  lemma {:induction false} AllToCome(producers: seq<Producer>, tasks: seq<Task>, f: Task -> nat)
    requires |producers| == |tasks| && forall p :: 0 <= p < |tasks| ==> producers[p] == Producer(tasks[p], Start)
    ensures Sum(producers, ToCome(f)) == Sum(tasks, f)
    decreases |tasks|
  {
    if tasks != [] {
      AllToCome(producers[..|tasks| - 1], tasks[..|tasks| - 1], f);
    }
  }

  /** No call has begun that has not returned. */
  ghost predicate Between(s: State) {
    forall p :: 0 <= p < |s.producers| ==> s.producers[p].call == Start || s.producers[p].call == Done
  }

  /** Every task added so far has been dealt with; the endless ones each keep a worker, and at most one
      thread more than they need has been started. */
  ghost predicate Calm(s: State, n: nat, tasks: seq<Task>) {
    && Rested(s) && Between(s) && s.sh.ring.count == 0 && s.waiter != Asleep
    && (|s.phases| <= n || |s.phases| <= Sum(s.phases, InInfinite) + 1)
    && Sum(s.phases, InInfinite) + Sum(s.producers, ToCome(IsEndless)) == Sum(tasks, IsEndless)
  }

  lemma {:induction false} CalmInitially(n: nat, tasks: seq<Task>, waits: bool) returns (s: State)
    requires 0 < n
    ensures s == Initial(n, tasks, waits)
    ensures Found(n, tasks, waits, s) && Calm(s, n, tasks)
  {
    s := Initial(n, tasks, waits);
    FoundStart(n, tasks, waits);
    SumZero(s.phases, InInfinite);
    AllToCome(s.producers, tasks, IsEndless);
  }

  /** The pool was calm before task `t` was added, and worker `w` is free to take it. */
  ghost predicate Due(s: State, n: nat, tasks: seq<Task>, w: nat, t: Task) {
    && Rested(s) && Between(s) && RingOk(s.sh.ring) && Contents(s.sh.ring) == [t] && s.waiter != Asleep
    && w < |s.phases| && s.phases[w] == Ready
    && (|s.phases| <= n || |s.phases| <= Sum(s.phases, InInfinite) + 1)
    && Sum(s.phases, InInfinite) + IsEndless(t) + Sum(s.producers, ToCome(IsEndless)) == Sum(tasks, IsEndless)
  }

  lemma {:induction false} NoneFree(phases: seq<Phase>)
    requires forall w :: 0 <= w < |phases| ==> RunsEndless(phases[w])
    ensures Sum(phases, InInfinite) == Sum(phases + [Ready], InInfinite) == |phases|
  {
    SumAppended(phases, Ready, InInfinite);
    SumConstant(phases, InInfinite, 1);
  }

  lemma {:induction false} AllInfiniteRun(n: nat, tasks: seq<Task>, s: State)
    requires Sound(s, n, tasks) && Rested(s) && AllInfinite(s.sh.states)
    ensures forall w :: 0 <= w < |s.phases| ==> RunsEndless(s.phases[w])
  {
    assert forall w :: 0 <= w < |s.phases| ==> s.sh.states[w] == Infinite && Resting(s.phases[w]);
  }

  /** A free worker for the next task: one there is, or the one that is added. */
  lemma {:induction false} FreeWorker(n: nat, tasks: seq<Task>, s: State) returns (w: nat)
    requires Sound(s, n, tasks) && Calm(s, n, tasks)
    ensures var ps := if AllInfinite(s.sh.states) then s.phases + [Ready] else s.phases;
      && w < |ps| && ps[w] == Ready && (forall v :: 0 <= v < |ps| ==> Resting(ps[v]))
      && Sum(ps, InInfinite) == Sum(s.phases, InInfinite)
      && (|ps| <= n || |ps| <= Sum(ps, InInfinite) + 1)
  {
    if AllInfinite(s.sh.states) {
      w := |s.phases|;
      AllInfiniteRun(n, tasks, s);
      NoneFree(s.phases);
    } else {
      w :| w < |s.sh.states| && s.sh.states[w] != Infinite;
      assert Resting(s.phases[w]);
    }
  }

  /** A call adds a task to a calm pool and returns. */
  lemma {:induction false} QueueCalm(n: nat, tasks: seq<Task>, waits: bool, s: State, p: nat) returns (r: State, w: nat)
    requires Found(n, tasks, waits, s) && Calm(s, n, tasks) && CallIs(s, p, Start)
    ensures Found(n, tasks, waits, r) && Due(r, n, tasks, w, tasks[p])
    ensures r.producers == s.producers[p := Producer(tasks[p], Done)] && r.waiter == s.waiter
  {
    w := FreeWorker(n, tasks, s);
    r := Queue(n, tasks, waits, s, p);
    SumUpdated(s.producers, p, Producer(tasks[p], Done), ToCome(IsEndless));
  }

  lemma {:induction false} DealWithEndless(n: nat, tasks: seq<Task>, waits: bool, s: State, w: nat, t: Task)
    returns (r: State)
    requires Found(n, tasks, waits, s) && Due(s, n, tasks, w, t) && Endless(t)
    ensures Found(n, tasks, waits, r) && Calm(r, n, tasks)
    ensures r.phases == s.phases[w := Executing(t)] && r.producers == s.producers && r.waiter == s.waiter
  {
    r := TakeOldest(n, tasks, waits, s, w);
    r := StartHeld(n, tasks, waits, r, w);
    SumUpdated(s.phases, w, Executing(t), InInfinite);
    assert r.phases == s.phases[w := Executing(t)];
  }

  lemma {:induction false} DealWithOther(n: nat, tasks: seq<Task>, waits: bool, s: State, w: nat, t: Task)
    returns (r: State)
    requires Found(n, tasks, waits, s) && Due(s, n, tasks, w, t) && !Endless(t)
    ensures Found(n, tasks, waits, r) && Calm(r, n, tasks)
    ensures r.producers == s.producers && r.waiter == s.waiter
  {
    r := TakeOldest(n, tasks, waits, s, w);
    if t.hasProc {
      r := RunHeld(n, tasks, waits, r, w);
    } else {
      r := SkipHeld(n, tasks, waits, r, w);
    }
    assert r.phases == s.phases;
  }

  /** One task is added to a calm pool and dealt with. */
  lemma {:induction false} Serve(n: nat, tasks: seq<Task>, waits: bool, s: State, p: nat) returns (r: State)
    requires Found(n, tasks, waits, s) && Calm(s, n, tasks) && CallIs(s, p, Start)
    ensures Found(n, tasks, waits, r) && Calm(r, n, tasks)
    ensures r.producers == s.producers[p := Producer(tasks[p], Done)] && r.waiter == s.waiter
  {
    var q, w := QueueCalm(n, tasks, waits, s, p);
    if Endless(tasks[p]) {
      r := DealWithEndless(n, tasks, waits, q, w, tasks[p]);
    } else {
      r := DealWithOther(n, tasks, waits, q, w, tasks[p]);
    }
  }

  /** All tasks but those of the calls `later` are added and dealt with. */
  lemma {:induction false} ServeOthers(n: nat, tasks: seq<Task>, waits: bool, s: State, later: set<nat>)
    returns (r: State)
    requires Found(n, tasks, waits, s) && Calm(s, n, tasks)
    ensures Found(n, tasks, waits, r) && Calm(r, n, tasks) && r.waiter == s.waiter
    ensures forall p: nat :: p < |tasks| && p in later ==> r.producers[p] == s.producers[p]
    ensures forall p: nat :: p < |tasks| && p !in later ==> r.producers[p] == Producer(tasks[p], Done)
    decreases Sum(s.producers, ToCome(One))
  {
    r := s;
    if p: nat :| p < |tasks| && p !in later && s.producers[p].call == Start {
      SumUpdated(s.producers, p, Producer(tasks[p], Done), ToCome(One));
      r := Serve(n, tasks, waits, s, p);
      r := ServeOthers(n, tasks, waits, r, later);
    }
  }

  /** All tasks but those of the calls `later` have been dealt with, and that of call `x` among them has
      just been queued. */
  lemma {:induction false} QueueAfterOthers(n: nat, tasks: seq<Task>, waits: bool, x: nat, later: set<nat>)
    returns (r: State, w: nat)
    requires 0 < n && x < |tasks| && x in later
    ensures Found(n, tasks, waits, r) && Due(r, n, tasks, w, tasks[x])
    ensures |r.producers| == |tasks| && r.waiter == if waits then NotBegun else Returned
    ensures forall p: nat :: p < |tasks| ==>
              r.producers[p] == Producer(tasks[p], if p in later && p != x then Start else Done)
  {
    var s := CalmInitially(n, tasks, waits);
    s := ServeOthers(n, tasks, waits, s, later);
    r, w := QueueCalm(n, tasks, waits, s, x);
  }

  // ---- a task added behind the last free worker ----

  lemma {:induction false} OnlyOneToCome(producers: seq<Producer>, y: nat, f: Task -> nat)
    requires y < |producers| && producers[y].call == Start
    requires forall p :: 0 <= p < |producers| && p != y ==> producers[p].call == Done
    ensures Sum(producers, ToCome(f)) == f(producers[y].task)
  {
    var none := producers[y := producers[y].(call := Done)];
    SumUpdated(producers, y, producers[y].(call := Done), ToCome(f));
    SumZero(none, ToCome(f));
  }

  /** When one worker is free and as many others as there can be run endless tasks, they all do. */
  lemma {:induction false} OthersRunEndless(phases: seq<Phase>, w: nat)
    requires w < |phases| && phases[w] == Ready && |phases| <= Sum(phases, InInfinite) + 1
    ensures forall v :: 0 <= v < |phases| && v != w ==> phases[v].Executing?
  {
    var t := Task(0, InfiniteProc, true);
    var full := phases[w := Executing(t)];
    SumUpdated(phases, w, Executing(t), InInfinite);
    forall v | 0 <= v < |phases| && v != w ensures phases[v].Executing? {
      SumWithout(full, InInfinite, v);
    }
  }

  /** A task is added while a worker holds an endless one: no thread is started for it. */
  lemma {:induction false} QueueBehindHeld(n: nat, tasks: seq<Task>, waits: bool, s: State, w: nat, y: nat)
    returns (r: State)
    requires Found(n, tasks, waits, s) && s.sh.ring.count == 0 && CallIs(s, y, Start)
    requires w < |s.phases| && s.phases[w].Held?
    requires forall v :: 0 <= v < |s.phases| ==> s.phases[v] != Waiting
    ensures Found(n, tasks, waits, r) && r.phases == s.phases && r.sh.normal == s.sh.normal
    ensures Contents(r.sh.ring) == [tasks[y]] && r.waiter == s.waiter
    ensures r.producers == s.producers[y := Producer(tasks[y], Done)]
  {
    NotAllInfinite(n, tasks, s, w);
    r := Queue(n, tasks, waits, s, y);
  }

  /** Then the worker starts what it holds. */
  lemma {:induction false} AddBehindHeld(n: nat, tasks: seq<Task>, waits: bool, s: State, w: nat, t: Task, y: nat)
    returns (r: State)
    requires Found(n, tasks, waits, s) && Due(s, n, tasks, w, t) && Endless(t) && CallIs(s, y, Start)
    ensures Found(n, tasks, waits, r) && r.phases == s.phases[w := Executing(t)]
    ensures Contents(r.sh.ring) == [tasks[y]] && r.waiter == s.waiter
    ensures r.producers == s.producers[y := Producer(tasks[y], Done)]
  {
    var held := TakeOldest(n, tasks, waits, s, w);
    var queued := QueueBehindHeld(n, tasks, waits, held, w, y);
    r := StartHeld(n, tasks, waits, queued, w);
    assert s.phases[w := Held(t)][w := Executing(t)] == s.phases[w := Executing(t)];
  }

  /** The waiter, if there is one, looks last and goes to sleep. */
  lemma {:induction false} LookLast(n: nat, tasks: seq<Task>, waits: bool, s: State) returns (r: State)
    requires Found(n, tasks, waits, s) && 0 < s.sh.ring.count
    requires s.waiter == if waits then NotBegun else Returned
    ensures Found(n, tasks, waits, r)
    ensures r.sh == s.sh && r.phases == s.phases && r.producers == s.producers
    ensures r.waiter == if waits then Asleep else Returned
  {
    r := s;
    if waits {
      r := StepTo(n, tasks, waits, s, Check);
    }
  }

  // ---- a ring full of bad tasks ----

  /** Weighs one the tasks that are to fill the ring, and none of them is plain. */
  ghost predicate Bad(f: Task -> nat) {
    forall t: Task :: f(t) <= 1 && (f(t) == 1 ==> !Plain(t))
  }

  /** The ring is being filled with bad tasks, the one of call `x` last. */
  ghost predicate Filling(s: State, n: nat, tasks: seq<Task>, bad: Task -> nat, x: nat) {
    && RingOk(s.sh.ring) && Between(s) && s.sh.normal == 0 && s.sh.ring.count <= n && x < |s.producers| == |tasks|
    && (forall w :: 0 <= w < |s.phases| ==> s.phases[w] == Ready)
    && (forall i :: 0 <= i < s.sh.ring.count ==> bad(Contents(s.sh.ring)[i]) == 1)
    && (if s.sh.ring.count < n then s.producers[x].call == Start else n > 0 ==> Contents(s.sh.ring)[n - 1] == tasks[x])
    && Sum(s.producers, ToCome(bad)) + s.sh.ring.count == Sum(tasks, bad)
    && Sum(s.producers, ToCome(One)) + s.sh.ring.count == |tasks|
  }

  lemma {:induction false} FillingInitially(n: nat, tasks: seq<Task>, waits: bool, bad: Task -> nat, x: nat)
    returns (s: State)
    requires 0 < n && x < |tasks|
    ensures s == Initial(n, tasks, waits) && Found(n, tasks, waits, s) && Filling(s, n, tasks, bad, x)
  {
    s := Initial(n, tasks, waits);
    FoundStart(n, tasks, waits);
    AllToCome(s.producers, tasks, bad);
    AllToCome(s.producers, tasks, One);
    SumConstant(tasks, One, 1);
  }

  /** One more bad task is queued. */
  lemma {:induction false} FillOne(n: nat, tasks: seq<Task>, waits: bool, s: State, bad: Task -> nat, x: nat, p: nat)
    returns (r: State)
    requires Found(n, tasks, waits, s) && Filling(s, n, tasks, bad, x) && s.sh.ring.count < n
    requires CallIs(s, p, Start) && bad(tasks[p]) == 1 && (p == x <==> s.sh.ring.count == n - 1)
    ensures Found(n, tasks, waits, r) && Filling(r, n, tasks, bad, x)
    ensures r.sh.ring.count == s.sh.ring.count + 1 && r.waiter == s.waiter
  {
    NotAllInfinite(n, tasks, s, 0);
    r := Queue(n, tasks, waits, s, p);
    SumUpdated(s.producers, p, Producer(tasks[p], Done), ToCome(bad));
    SumUpdated(s.producers, p, Producer(tasks[p], Done), ToCome(One));
  }

  /** Another bad task than that of call `x` has yet to come. */
  lemma {:induction false} AnotherBad(n: nat, tasks: seq<Task>, s: State, bad: Task -> nat, x: nat) returns (p: nat)
    requires Known(s, tasks) && Filling(s, n, tasks, bad, x) && Bad(bad)
    requires s.sh.ring.count + 1 < n <= Sum(tasks, bad)
    ensures p != x && CallIs(s, p, Start) && bad(tasks[p]) == 1
  {
    var rest := s.producers[x := Producer(tasks[x], Done)];
    SumUpdated(s.producers, x, Producer(tasks[x], Done), ToCome(bad));
    SumPositive(rest, ToCome(bad));
    assert bad(tasks[x]) <= 1;
    p :| p < |rest| && ToCome(bad)(rest[p]) > 0;
    assert bad(tasks[p]) <= 1;
  }

  lemma {:induction false} Fill(n: nat, tasks: seq<Task>, waits: bool, s: State, bad: Task -> nat, x: nat)
    returns (r: State)
    requires Found(n, tasks, waits, s) && Filling(s, n, tasks, bad, x) && Bad(bad)
    requires n <= Sum(tasks, bad) && bad(tasks[x]) == 1
    ensures Found(n, tasks, waits, r) && Filling(r, n, tasks, bad, x) && r.sh.ring.count == n && r.waiter == s.waiter
    decreases n - s.sh.ring.count
  {
    r := s;
    if s.sh.ring.count < n {
      var p := x;
      if s.sh.ring.count + 1 < n {
        p := AnotherBad(n, tasks, s, bad, x);
      }
      r := FillOne(n, tasks, waits, s, bad, x, p);
      r := Fill(n, tasks, waits, r, bad, x);
    }
  }

  /** All other callers find the ring full. */
  lemma {:induction false} BlockOthers(n: nat, tasks: seq<Task>, waits: bool, s: State) returns (r: State)
    requires Found(n, tasks, waits, s) && s.sh.ring.count == n && !AllInfinite(s.sh.states)
    ensures Found(n, tasks, waits, r)
    ensures r.sh == s.sh && r.phases == s.phases && r.waiter == s.waiter && |r.producers| == |s.producers|
    ensures forall p :: 0 <= p < |s.producers| ==>
              r.producers[p].call == if s.producers[p].call == Start then Blocked else s.producers[p].call
    decreases Sum(s.producers, ToCome(One))
  {
    r := s;
    if p: nat :| p < |s.producers| && s.producers[p].call == Start {
      SumUpdated(s.producers, p, s.producers[p].(call := Blocked), ToCome(One));
      r := StepTo(n, tasks, waits, s, Enter(p));
      r := BlockOthers(n, tasks, waits, r);
    }
  }

  /** Workers take the bad tasks one by one; the waiter, if there is one, sleeps as long as tasks are queued,
      and then if the last one taken is endless. */
  ghost predicate Draining(s: State, waits: bool, bad: Task -> nat, last: Task) {
    && RingOk(s.sh.ring) && Rested(s) && s.sh.ring.count <= Sum(s.phases, IsReady)
    && (forall i :: 0 <= i < s.sh.ring.count ==> bad(Contents(s.sh.ring)[i]) == 1)
    && (forall w :: 0 <= w < |s.phases| && s.phases[w] != Ready ==> bad(s.phases[w].task) == 1)
    && (0 < s.sh.ring.count ==> Contents(s.sh.ring)[s.sh.ring.count - 1] == last)
    && s.waiter == if waits && (0 < s.sh.ring.count || Endless(last)) then Asleep else Returned
  }

  /** The waiter, if it has been roused, looks again. */
  lemma {:induction false} LookAgain(n: nat, tasks: seq<Task>, waits: bool, s: State) returns (r: State)
    requires Found(n, tasks, waits, s) && s.sh.normal == 0
    requires s.waiter == if waits then Roused else Returned
    ensures Found(n, tasks, waits, r) && r.sh == s.sh && r.phases == s.phases && r.producers == s.producers
    ensures r.waiter == if waits && 0 < s.sh.ring.count then Asleep else Returned
  {
    r := s;
    if waits {
      r := StepTo(n, tasks, waits, s, Check);
    }
  }

  lemma {:induction false} DrainEndless(n: nat, tasks: seq<Task>, waits: bool, s: State, bad: Task -> nat,
                                        last: Task, w: nat)
    returns (r: State)
    requires Found(n, tasks, waits, s) && Draining(s, waits, bad, last) && Bad(bad) && 0 < s.sh.ring.count
    requires w < |s.phases| && s.phases[w] == Ready && Contents(s.sh.ring)[0].hasProc
    ensures Found(n, tasks, waits, r) && Draining(r, waits, bad, last)
    ensures r.sh.ring.count == s.sh.ring.count - 1 && r.producers == s.producers
  {
    var t := Contents(s.sh.ring)[0];
    assert Endless(t);
    SumUpdated(s.phases, w, Executing(t), IsReady);
    r := TakeOldest(n, tasks, waits, s, w);
    r := StartHeld(n, tasks, waits, r, w);
    assert r.phases == s.phases[w := Executing(t)];
  }

  lemma {:induction false} SkipAndLook(n: nat, tasks: seq<Task>, waits: bool, s: State, w: nat) returns (r: State)
    requires Found(n, tasks, waits, s) && s.sh.normal == 0 && s.waiter == if waits then Asleep else Returned
    requires w < |s.phases| && s.phases[w].Held? && !s.phases[w].task.hasProc
    ensures Found(n, tasks, waits, r) && r.sh.ring == s.sh.ring && r.sh.normal == 0 && r.producers == s.producers
    ensures r.phases == s.phases[w := Ready]
    ensures r.waiter == if waits && 0 < s.sh.ring.count then Asleep else Returned
  {
    r := SkipHeld(n, tasks, waits, s, w);
    r := LookAgain(n, tasks, waits, r);
  }

  lemma {:induction false} DrainSkipped(n: nat, tasks: seq<Task>, waits: bool, s: State, bad: Task -> nat,
                                        last: Task, w: nat)
    returns (r: State)
    requires Found(n, tasks, waits, s) && Draining(s, waits, bad, last) && Bad(bad) && 0 < s.sh.ring.count
    requires w < |s.phases| && s.phases[w] == Ready && !Contents(s.sh.ring)[0].hasProc
    ensures Found(n, tasks, waits, r) && Draining(r, waits, bad, last)
    ensures r.sh.ring.count == s.sh.ring.count - 1 && r.producers == s.producers
  {
    var q := TakeOldest(n, tasks, waits, s, w);
    r := SkipAndLook(n, tasks, waits, q, w);
    assert r.phases == s.phases;
  }

  lemma {:induction false} Drain(n: nat, tasks: seq<Task>, waits: bool, s: State, bad: Task -> nat, last: Task)
    returns (r: State)
    requires Found(n, tasks, waits, s) && Draining(s, waits, bad, last) && Bad(bad)
    ensures Found(n, tasks, waits, r) && Draining(r, waits, bad, last) && r.sh.ring.count == 0
    ensures r.producers == s.producers
    decreases s.sh.ring.count
  {
    r := s;
    if 0 < s.sh.ring.count {
      SumPositive(s.phases, IsReady);
      var w: nat :| w < |s.phases| && IsReady(s.phases[w]) > 0;
      if Contents(s.sh.ring)[0].hasProc {
        r := DrainEndless(n, tasks, waits, s, bad, last, w);
      } else {
        r := DrainSkipped(n, tasks, waits, s, bad, last, w);
      }
      r := Drain(n, tasks, waits, r, bad, last);
    }
  }

  /** A full ring: the callers that are left block, and some are. */
  lemma {:induction false} BlockBehind(n: nat, tasks: seq<Task>, waits: bool, s: State, bad: Task -> nat, x: nat)
    returns (r: State)
    requires Found(n, tasks, waits, s) && Filling(s, n, tasks, bad, x) && s.sh.ring.count == n < |tasks|
    ensures Found(n, tasks, waits, r) && r.sh == s.sh && r.phases == s.phases && r.waiter == s.waiter
    ensures forall p :: 0 <= p < |r.producers| ==> r.producers[p].call == Blocked || r.producers[p].call == Done
    ensures Sum(r.producers, IsBlocked) > 0
  {
    NotAllInfinite(n, tasks, s, 0);
    SumPositive(s.producers, ToCome(One));
    var p: nat :| p < |s.producers| && ToCome(One)(s.producers[p]) > 0;
    r := BlockOthers(n, tasks, waits, s);
    assert r.producers[p].call == Blocked;
    SumPositive(r.producers, IsBlocked);
  }

  /** The ring is full of bad tasks, all other callers are blocked and the waiter, if any, is asleep. */
  lemma {:induction false} FullOfBad(n: nat, tasks: seq<Task>, waits: bool, bad: Task -> nat, x: nat) returns (r: State)
    requires 0 < n < |tasks| && Bad(bad) && n <= Sum(tasks, bad) && x < |tasks| && bad(tasks[x]) == 1
    ensures Found(n, tasks, waits, r) && Draining(r, waits, bad, tasks[x])
    ensures forall p :: 0 <= p < |r.producers| ==> r.producers[p].call == Blocked || r.producers[p].call == Done
    ensures Sum(r.producers, IsBlocked) > 0
  {
    var s := FillingInitially(n, tasks, waits, bad, x);
    s := Fill(n, tasks, waits, s, bad, x);
    SumConstant(s.phases, IsReady, 1);
    r := BlockBehind(n, tasks, waits, s, bad, x);
    r := LookLast(n, tasks, waits, r);
  }

}
