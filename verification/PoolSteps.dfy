/** The thread pool as a step system: one step for each critical section, and one for each write
    a thread makes outside of them. */
module PoolSteps {
  import opened Basics
  import opened TaskRing

  const U32: nat := 0x1_0000_0000

  // ---- the state the lock protects, and its critical sections ----

  datatype ThreadState = Idle | Running | Infinite | Dead

  datatype Shared = Shared(ring: Ring, states: seq<ThreadState>, normal: nat, infinite: nat)

  /** `VThreadPool_IsAllThreadsInfinite`. */
  predicate AllInfinite(states: seq<ThreadState>) {
    forall i :: 0 <= i < |states| ==> states[i] == Infinite
  }

  /** The opening of `VTaskList_Enqueue`: a thread is added when all run infinite procedures. */
  function ThreadAdded(sh: Shared): Shared {
    if AllInfinite(sh.states) then sh.(states := sh.states + [Idle]) else sh
  }

  /** One look at the ring by a worker: it goes idle, or takes a task. */
  function Taken(sh: Shared, w: nat): Shared
    requires w < |sh.states| && RingOk(sh.ring)
  {
    if sh.ring.count == 0 then sh.(states := sh.states[w := Idle]) else sh.(ring := Dequeued(sh.ring).1)
  }

  function StateFor(t: Task): ThreadState {
    if t.attr == InfiniteProc then Infinite else Running
  }

  function Incremented(x: nat): nat {
    (x + 1) % U32
  }

  function Decremented(x: nat): nat
    requires x < U32
  {
    (x + U32 - 1) % U32
  }

  /** Counting a task in before it runs. */
  function Counted(sh: Shared, t: Task): Shared {
    if t.attr == InfiniteProc then sh.(infinite := Incremented(sh.infinite))
    else sh.(normal := Incremented(sh.normal))
  }

  /** Counting a task out after it has run, whatever its attribute. */
  function Finished(sh: Shared, w: nat): Shared
    requires w < |sh.states| && sh.normal < U32
  {
    sh.(states := sh.states[w := Idle], normal := Decremented(sh.normal))
  }

  /** Counting out undoes counting in, wrap-around included, exactly for default tasks: an infinite task
      that returns is counted out of the wrong counter. */
  lemma CountedOutIff(sh: Shared, t: Task, w: nat)
    requires w < |sh.states| && sh.normal < U32
    ensures Finished(Counted(sh, t), w) == sh.(states := sh.states[w := Idle]) <==> t.attr == DefaultProc
  {
    var x := sh.normal;
    if x + 1 < U32 {
      assert Incremented(x) == x + 1;
    } else {
      assert Incremented(x) == 0;
    }
    assert x > 0 ==> (x - 1 + U32) % U32 == x - 1;
  }

  /** The counters have 32 bits. */
  lemma CounterWraps(x: nat)
    requires x < 4294967296
    ensures Incremented(x) == if x == 4294967295 then 0 else x + 1
    ensures Decremented(x) == if x == 0 then 4294967295 else x - 1
  {
    if x > 0 {
      assert x + U32 - 1 == U32 + (x - 1);
    }
  }

  // ---- threads ----

  /** A worker: at the top of its loop; waiting for a task; with a task taken and the lock released;
      with its state written but the task not counted; running it; done but before the last section. */
  datatype Phase = Ready | Waiting | Held(task: Task) | Marked(task: Task) | Executing(task: Task) | Post

  /** A call of `VThreadPool_AddTask`: not begun; waiting for room; woken; enqueued but not yet
      signalled; returned. */
  datatype Call = Start | Blocked | Woken | NeedSignal | Done

  datatype Producer = Producer(task: Task, call: Call)

  /** A call of `VThreadPool_Wait`; `Returned` also stands for no such call. */
  datatype Waiter = NotBegun | Asleep | Roused | Returned

  datatype State = State(
    sh: Shared,
    phases: seq<Phase>,
    producers: seq<Producer>,
    waiter: Waiter,
    enqueued: seq<Task>,
    dequeued: seq<Task>,
    finished: seq<Task>,
    skipped: seq<Task>)

  datatype Step =
    | Enter(p: nat)
    | Retry(p: nat)
    | Signal(p: nat, woken: Option<nat>)
    | Take(w: nat)
    | Mark(w: nat)
    | Count(w: nat)
    | Finish(w: nat, freed: Option<nat>)
    | Settle(w: nat)
    | Check
    | SpuriousWorker(w: nat)
    | SpuriousProducer(p: nat)
    | SpuriousWaiter

  predicate Spurious(step: Step) {
    step.SpuriousWorker? || step.SpuriousProducer? || step.SpuriousWaiter?
  }

  predicate Shape(s: State) {
    && RingOk(s.sh.ring) && |s.phases| == |s.sh.states| && s.sh.normal < U32 && s.sh.infinite < U32
  }

  predicate CallIs(s: State, p: nat, c: Call) {
    p < |s.producers| && s.producers[p].call == c
  }

  /** A signal wakes one waiting thread if there is one. */
  predicate WakesWorker(s: State, woken: Option<nat>) {
    match woken
    case Some(w) => w < |s.phases| && s.phases[w] == Waiting
    case None => forall w :: 0 <= w < |s.phases| ==> s.phases[w] != Waiting
  }

  predicate WakesProducer(s: State, freed: Option<nat>) {
    match freed
    case Some(p) => CallIs(s, p, Blocked)
    case None => forall p :: 0 <= p < |s.producers| ==> s.producers[p].call != Blocked
  }

  predicate Enabled(s: State, step: Step) {
    match step
    case Enter(p) => CallIs(s, p, Start)
    case Retry(p) => CallIs(s, p, Woken)
    case Signal(p, woken) => CallIs(s, p, NeedSignal) && WakesWorker(s, woken)
    case Take(w) => w < |s.phases| && s.phases[w] == Ready
    case Mark(w) => w < |s.phases| && s.phases[w].Held?
    case Count(w) => w < |s.phases| && s.phases[w].Marked?
    case Finish(w, freed) => w < |s.phases| && s.phases[w].Executing? && WakesProducer(s, freed)
    case Settle(w) => w < |s.phases| && s.phases[w] == Post
    case Check => s.waiter == NotBegun || s.waiter == Roused
    case SpuriousWorker(w) => w < |s.phases| && s.phases[w] == Waiting
    case SpuriousProducer(p) => CallIs(s, p, Blocked)
    case SpuriousWaiter => s.waiter == Asleep
  }

  function WithCall(s: State, p: nat, c: Call): State
    requires p < |s.producers|
  {
    s.(producers := s.producers[p := s.producers[p].(call := c)])
  }

  function WithPhase(s: State, w: nat, ph: Phase): State
    requires w < |s.phases|
  {
    s.(phases := s.phases[w := ph])
  }

  /** The wait loop of `VTaskList_Enqueue` and the enqueuing behind it. */
  function Put(s: State, p: nat): State
    requires Shape(s) && p < |s.producers|
  {
    var t := s.producers[p].task;
    if s.sh.ring.count == |s.sh.ring.items| then WithCall(s, p, Blocked)
    else WithCall(s.(sh := s.sh.(ring := Enqueued(s.sh.ring, t)), enqueued := s.enqueued + [t]), p, NeedSignal)
  }

  function WithThread(s: State): State {
    if AllInfinite(s.sh.states) then s.(sh := ThreadAdded(s.sh), phases := s.phases + [Ready]) else s
  }

  function Apply(s: State, step: Step): State
    requires Shape(s) && Enabled(s, step)
  {
    match step
    case Enter(p) => Put(WithThread(s), p)
    case Retry(p) => Put(s, p)
    case Signal(p, woken) =>
      var s' := WithCall(s, p, Done);
      (match woken case Some(w) => WithPhase(s', w, Ready) case None => s')
    case Take(w) =>
      var t := Dequeued(s.sh.ring).0;
      var s' := s.(sh := Taken(s.sh, w));
      if s.sh.ring.count == 0 then WithPhase(s', w, Waiting)
      else WithPhase(s'.(dequeued := s.dequeued + [t]), w, Held(t))
    case Mark(w) =>
      var t := s.phases[w].task;
      if t.hasProc then WithPhase(s.(sh := s.sh.(states := s.sh.states[w := StateFor(t)])), w, Marked(t))
      else WithPhase(s.(skipped := s.skipped + [t]), w, Post)
    case Count(w) => WithPhase(s.(sh := Counted(s.sh, s.phases[w].task)), w, Executing(s.phases[w].task))
    case Finish(w, freed) =>
      var s' := WithPhase(s.(sh := Finished(s.sh, w), finished := s.finished + [s.phases[w].task]), w, Post);
      (match freed case Some(p) => WithCall(s', p, Woken) case None => s')
    case Settle(w) =>
      var s' := WithPhase(s, w, Ready);
      if s.sh.normal == 0 && s.waiter == Asleep then s'.(waiter := Roused) else s'
    case Check => s.(waiter := if s.sh.normal > 0 || s.sh.ring.count > 0 then Asleep else Returned)
    case SpuriousWorker(w) => WithPhase(s, w, Ready)
    case SpuriousProducer(p) => WithCall(s, p, Woken)
    case SpuriousWaiter => s.(waiter := Roused)
  }

  lemma {:induction false} ShapeKept(s: State, step: Step)
    requires Shape(s) && Enabled(s, step)
    ensures Shape(Apply(s, step))
  {
    match step
    case Enter(p) =>
      if s.sh.ring.count < |s.sh.ring.items| {
        EnqueuedAppends(s.sh.ring, s.producers[p].task);
      }
    case Retry(p) =>
      if s.sh.ring.count < |s.sh.ring.items| {
        EnqueuedAppends(s.sh.ring, s.producers[p].task);
      }
    case Take(w) =>
      if s.sh.ring.count > 0 {
        DequeuedTakes(s.sh.ring);
      }
    case _ =>
  }

  // ---- runs ----

  /** A pool of `n` threads, calls that want to add the tasks, and perhaps a call that waits. */
  function Initial(n: nat, tasks: seq<Task>, waits: bool): (s: State)
    requires 0 < n
    ensures Shape(s)
  {
    State(Shared(EmptyRing(n), seq(n, _ => Idle), 0, 0), seq(n, _ => Ready),
          seq(|tasks|, p requires 0 <= p < |tasks| => Producer(tasks[p], Start)),
          if waits then NotBegun else Returned, [], [], [], [])
  }

  ghost predicate IsRun(s: State, steps: seq<Step>)
    requires Shape(s)
    decreases |steps|
  {
    steps == [] ||
    (Enabled(s, steps[0]) && (ShapeKept(s, steps[0]); IsRun(Apply(s, steps[0]), steps[1..])))
  }

  ghost function End(s: State, steps: seq<Step>): (e: State)
    requires Shape(s) && IsRun(s, steps)
    ensures Shape(e)
    decreases |steps|
  {
    if steps == [] then s
    else
      ShapeKept(s, steps[0]);
      End(Apply(s, steps[0]), steps[1..])
  }

  /** A state that some run of the pool reaches. */
  ghost predicate Reachable(n: nat, tasks: seq<Task>, waits: bool, s: State)
    requires 0 < n
  {
    exists steps: seq<Step> :: IsRun(Initial(n, tasks, waits), steps) && End(Initial(n, tasks, waits), steps) == s
  }

  lemma {:induction false} RunExtended(s: State, steps: seq<Step>, step: Step)
    requires Shape(s) && IsRun(s, steps) && Enabled(End(s, steps), step)
    ensures IsRun(s, steps + [step]) && End(s, steps + [step]) == Apply(End(s, steps), step)
    decreases |steps|
  {
    var all := steps + [step];
    ShapeKept(s, all[0]);
    if steps == [] {
      assert all[1..] == [];
    } else {
      assert all[1..] == steps[1..] + [step];
      RunExtended(Apply(s, steps[0]), steps[1..], step);
    }
  }

  // ---- counting threads ----

  /** The weights of a list, added up. */
  function Sum<T>(xs: seq<T>, weight: T -> nat): nat {
    if xs == [] then 0 else Sum(xs[..|xs| - 1], weight) + weight(xs[|xs| - 1])
  }

  lemma {:induction false} SumUpdated<T>(xs: seq<T>, i: nat, x: T, weight: T -> nat)
    requires i < |xs|
    ensures Sum(xs[i := x], weight) + weight(xs[i]) == Sum(xs, weight) + weight(x)
    decreases |xs|
  {
    var n := |xs| - 1;
    if i == n {
      assert xs[i := x][..n] == xs[..n];
    } else {
      SumUpdated(xs[..n], i, x, weight);
      assert xs[i := x][..n] == xs[..n][i := x];
    }
  }

  lemma SumAppended<T>(xs: seq<T>, x: T, weight: T -> nat)
    ensures Sum(xs + [x], weight) == Sum(xs, weight) + weight(x)
  {
    assert (xs + [x])[..|xs|] == xs;
  }

  lemma {:induction false} SumPositive<T>(xs: seq<T>, weight: T -> nat)
    ensures Sum(xs, weight) > 0 <==> exists i :: 0 <= i < |xs| && weight(xs[i]) > 0
  {
    if xs != [] {
      var n := |xs| - 1;
      SumPositive(xs[..n], weight);
      if i :| 0 <= i < |xs| && weight(xs[i]) > 0 {
        assert i < n ==> xs[..n][i] == xs[i];
      }
      if i :| 0 <= i < n && weight(xs[..n][i]) > 0 {
        assert weight(xs[i]) > 0;
      }
    }
  }

  lemma {:induction false} SumBounded<T>(xs: seq<T>, weight: T -> nat, k: nat)
    requires forall x :: weight(x) <= k
    ensures Sum(xs, weight) <= k * |xs|
  {
    if xs != [] {
      SumBounded(xs[..|xs| - 1], weight, k);
    }
  }

  /** What a step adds to a sum over the workers. */
  function PhaseDelta(s: State, step: Step, f: Phase -> nat): int
    requires Shape(s) && Enabled(s, step)
  {
    match step
    case Enter(p) => if AllInfinite(s.sh.states) then f(Ready) else 0
    case Signal(p, Some(w)) => f(Ready) - f(Waiting)
    case Take(w) => (if s.sh.ring.count == 0 then f(Waiting) else f(Held(Dequeued(s.sh.ring).0))) - f(Ready)
    case Mark(w) => (if s.phases[w].task.hasProc then f(Marked(s.phases[w].task)) else f(Post)) - f(s.phases[w])
    case Count(w) => f(Executing(s.phases[w].task)) - f(s.phases[w])
    case Finish(w, _) => f(Post) - f(s.phases[w])
    case Settle(w) => f(Ready) - f(Post)
    case SpuriousWorker(w) => f(Ready) - f(Waiting)
    case _ => 0
  }

  lemma PhaseSum(s: State, step: Step, f: Phase -> nat)
    requires Shape(s) && Enabled(s, step)
    ensures Sum(Apply(s, step).phases, f) == Sum(s.phases, f) + PhaseDelta(s, step, f)
  {
    match step
    case Enter(p) => SumAppended(s.phases, Ready, f);
    case Signal(p, Some(w)) => SumUpdated(s.phases, w, Ready, f);
    case Take(w) =>
      SumUpdated(s.phases, w, if s.sh.ring.count == 0 then Waiting else Held(Dequeued(s.sh.ring).0), f);
    case Mark(w) =>
      SumUpdated(s.phases, w, if s.phases[w].task.hasProc then Marked(s.phases[w].task) else Post, f);
    case Count(w) => SumUpdated(s.phases, w, Executing(s.phases[w].task), f);
    case Finish(w, _) => SumUpdated(s.phases, w, Post, f);
    case Settle(w) => SumUpdated(s.phases, w, Ready, f);
    case SpuriousWorker(w) => SumUpdated(s.phases, w, Ready, f);
    case _ =>
  }

  /** The call a producer is in after it tried to enqueue. */
  function PutCall(s: State): Call {
    if s.sh.ring.count == |s.sh.ring.items| then Blocked else NeedSignal
  }

  /** What a step adds to a sum over the calls of `AddTask`. */
  function CallDelta(s: State, step: Step, g: Producer -> nat): int
    requires Enabled(s, step)
  {
    match step
    case Enter(p) => g(Producer(s.producers[p].task, PutCall(s))) - g(s.producers[p])
    case Retry(p) => g(Producer(s.producers[p].task, PutCall(s))) - g(s.producers[p])
    case Signal(p, _) => g(Producer(s.producers[p].task, Done)) - g(s.producers[p])
    case Finish(_, Some(p)) => g(Producer(s.producers[p].task, Woken)) - g(s.producers[p])
    case SpuriousProducer(p) => g(Producer(s.producers[p].task, Woken)) - g(s.producers[p])
    case _ => 0
  }

  lemma CallSum(s: State, step: Step, g: Producer -> nat)
    requires Shape(s) && Enabled(s, step)
    ensures Sum(Apply(s, step).producers, g) == Sum(s.producers, g) + CallDelta(s, step, g)
  {
    match step
    case Enter(p) => SumUpdated(s.producers, p, Producer(s.producers[p].task, PutCall(s)), g);
    case Retry(p) => SumUpdated(s.producers, p, Producer(s.producers[p].task, PutCall(s)), g);
    case Signal(p, _) => SumUpdated(s.producers, p, Producer(s.producers[p].task, Done), g);
    case Finish(_, Some(p)) => SumUpdated(s.producers, p, Producer(s.producers[p].task, Woken), g);
    case SpuriousProducer(p) => SumUpdated(s.producers, p, Producer(s.producers[p].task, Woken), g);
    case _ =>
  }

  /** What a step adds to the number of queued tasks. */
  function QueueDelta(s: State, step: Step): int {
    match step
    case Enter(_) => if s.sh.ring.count == |s.sh.ring.items| then 0 else 1
    case Retry(_) => if s.sh.ring.count == |s.sh.ring.items| then 0 else 1
    case Take(_) => if s.sh.ring.count == 0 then 0 else -1
    case _ => 0
  }

  lemma QueueCount(s: State, step: Step)
    requires Shape(s) && Enabled(s, step)
    ensures Apply(s, step).sh.ring.count == s.sh.ring.count + QueueDelta(s, step)
    ensures |Apply(s, step).sh.ring.items| == |s.sh.ring.items|
  {
  }
}
