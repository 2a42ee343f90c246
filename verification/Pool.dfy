/** The thread pool while it runs: submitters and workers as interleaved atomic steps over the work
    queue, the semaphore and the counters. */
module Pool {

  type Task = nat

  /** Where a worker stands in its loop. */
  datatype Phase = Waiting | Acquired | Holding(task: Task) | Running(task: Task)

  /** `tasks_`, `taskSemaphore_`, `queuedTasks_`, `activeTasks_`, one phase per worker, the submitters
      between their push and their release, and the history of submissions, pops and tasks run to the end. */
  datatype State = State(
    tasks: seq<Task>, permits: nat, queued: int, active: int, workers: seq<Phase>, releasing: nat,
    submitted: seq<Task>, popped: seq<Task>, finished: seq<Task>)

  datatype Step =
    | Push(task: Task)
    | Release
    | Acquire(w: nat)
    | Pop(w: nat)
    | Start(w: nat)
    | Finish(w: nat)

  /** Whether a step can happen: a worker blocks on the semaphore and otherwise follows its loop. */
  ghost predicate Enabled(s: State, e: Step) {
    match e
    case Push(_) => true
    case Release => s.releasing > 0
    case Acquire(w) => w < |s.workers| && s.workers[w].Waiting? && s.permits > 0
    case Pop(w) => w < |s.workers| && s.workers[w].Acquired?
    case Start(w) => w < |s.workers| && s.workers[w].Holding?
    case Finish(w) => w < |s.workers| && s.workers[w].Running?
  }

  function Next(s: State, e: Step): State
    requires Enabled(s, e)
  {
    match e
    case Push(t) =>
      s.(tasks := s.tasks + [t], queued := s.queued + 1, releasing := s.releasing + 1, submitted := s.submitted + [t])
    case Release => s.(releasing := s.releasing - 1, permits := s.permits + 1)
    case Acquire(w) => s.(permits := s.permits - 1, workers := s.workers[w := Acquired])
    case Pop(w) =>
      // an empty queue sends the worker back to the semaphore
      if s.tasks == [] then s.(workers := s.workers[w := Waiting])
      else
        s.(tasks := s.tasks[1..], queued := s.queued - 1, popped := s.popped + [s.tasks[0]],
           workers := s.workers[w := Holding(s.tasks[0])])
    case Start(w) => s.(active := s.active + 1, workers := s.workers[w := Running(s.workers[w].task)])
    case Finish(w) =>
      s.(active := s.active - 1, finished := s.finished + [s.workers[w].task], workers := s.workers[w := Waiting])
  }

  function CountAcquired(ws: seq<Phase>): nat {
    if ws == [] then 0 else (if ws[0].Acquired? then 1 else 0) + CountAcquired(ws[1..])
  }

  function CountRunning(ws: seq<Phase>): nat {
    if ws == [] then 0 else (if ws[0].Running? then 1 else 0) + CountRunning(ws[1..])
  }

  /** Whether a worker has task `x` in its hands, as a number. */
  function Has(p: Phase, x: Task): nat {
    match p
    case Holding(t) => if t == x then 1 else 0
    case Running(t) => if t == x then 1 else 0
    case _ => 0
  }

  /** How many workers have task `x` in their hands. */
  function InHand(ws: seq<Phase>, x: Task): nat {
    if ws == [] then 0 else Has(ws[0], x) + InHand(ws[1..], x)
  }

  lemma {:induction false} HandUpdate(ws: seq<Phase>, w: nat, p: Phase, x: Task)
    requires w < |ws|
    ensures InHand(ws[w := p], x) == InHand(ws, x) - Has(ws[w], x) + Has(p, x)
  {
    if w == 0 {
      assert ws[0 := p][1..] == ws[1..];
    } else {
      HandUpdate(ws[1..], w - 1, p, x);
      assert ws[w := p][1..] == ws[1..][w - 1 := p];
    }
  }

  /** How often `x` occurs. */
  function Times(ts: seq<Task>, x: Task): nat {
    if ts == [] then 0 else Times(ts[..|ts| - 1], x) + if ts[|ts| - 1] == x then 1 else 0
  }

  lemma TimesSnoc(ts: seq<Task>, t: Task, x: Task)
    ensures Times(ts + [t], x) == Times(ts, x) + if t == x then 1 else 0
  {
    assert (ts + [t])[..|ts|] == ts;
  }

  lemma {:induction false} TimesAppend(a: seq<Task>, b: seq<Task>, x: Task)
    ensures Times(a + b, x) == Times(a, x) + Times(b, x)
  {
    if b == [] {
      assert a + b == a;
    } else {
      assert (a + b)[..|a + b| - 1] == a + b[..|b| - 1];
      TimesAppend(a, b[..|b| - 1], x);
    }
  }

  lemma {:induction false} CountUpdate(ws: seq<Phase>, w: nat, p: Phase)
    requires w < |ws|
    ensures CountAcquired(ws[w := p]) == CountAcquired(ws)
              - (if ws[w].Acquired? then 1 else 0) + (if p.Acquired? then 1 else 0)
    ensures CountRunning(ws[w := p]) == CountRunning(ws)
              - (if ws[w].Running? then 1 else 0) + (if p.Running? then 1 else 0)
  {
    if w == 0 {
      assert ws[0 := p][1..] == ws[1..];
    } else {
      CountUpdate(ws[1..], w - 1, p);
      assert ws[w := p][1..] == ws[1..][w - 1 := p];
    }
  }

  /** Permit accounting, the counters, and first-in first-out order. */
  ghost predicate Inv(s: State) {
    && |s.tasks| == s.permits + CountAcquired(s.workers) + s.releasing
    && s.queued == |s.tasks|
    && s.active == CountRunning(s.workers)
    && s.submitted == s.popped + s.tasks
  }

  function Idle(n: nat): State {
    State([], 0, 0, 0, seq(n, i => Waiting), 0, [], [], [])
  }

  lemma {:induction false} AllWaiting(n: nat)
    ensures CountAcquired(seq(n, i => Waiting)) == 0 && CountRunning(seq(n, i => Waiting)) == 0
  {
    if n > 0 {
      AllWaiting(n - 1);
      assert seq(n, i => Waiting)[1..] == seq(n - 1, i => Waiting);
    }
  }

  lemma {:induction false} SomeAcquired(ws: seq<Phase>, w: nat)
    requires w < |ws| && ws[w].Acquired?
    ensures CountAcquired(ws) > 0
  {
    if w > 0 {
      SomeAcquired(ws[1..], w - 1);
    }
  }

  lemma NextKeeps(s: State, e: Step)
    requires Inv(s) && Enabled(s, e)
    ensures Inv(Next(s, e))
  {
    match e
    case Push(t) => assert s.popped + (s.tasks + [t]) == s.popped + s.tasks + [t];
    case Release =>
    case Acquire(w) => CountUpdate(s.workers, w, Acquired);
    case Pop(w) =>
      SomeAcquired(s.workers, w);
      CountUpdate(s.workers, w, Holding(s.tasks[0]));
      assert s.popped + s.tasks == s.popped + [s.tasks[0]] + s.tasks[1..];
    case Start(w) => CountUpdate(s.workers, w, Running(s.workers[w].task));
    case Finish(w) => CountUpdate(s.workers, w, Waiting);
  }

  /** A run: every step was possible when it happened. */
  ghost predicate Reaches(s: State, es: seq<Step>, t: State)
    decreases |es|
  {
    if es == [] then s == t
    else Enabled(s, es[0]) && Reaches(Next(s, es[0]), es[1..], t)
  }

  lemma {:induction false} RunKeeps(s: State, es: seq<Step>, t: State)
    requires Inv(s) && Reaches(s, es, t)
    ensures Inv(t)
    decreases |es|
  {
    if es != [] {
      NextKeeps(s, es[0]);
      RunKeeps(Next(s, es[0]), es[1..], t);
    }
  }

  /** In every interleaving: queue length is permits plus workers about to pop plus submitters about to
      release, and tasks leave in the order they came, each once. */
  lemma PermitsAccountForTasks(n: nat, es: seq<Step>, t: State)
    requires Reaches(Idle(n), es, t)
    ensures |t.tasks| == t.permits + CountAcquired(t.workers) + t.releasing
    ensures t.popped <= t.submitted && t.popped + t.tasks == t.submitted
    ensures t.queued == |t.tasks| && t.active == CountRunning(t.workers)
  {
    AllWaiting(n);
    RunKeeps(Idle(n), es, t);
  }

  /** Hence a worker that acquired a permit always finds a task: the oldest not yet popped. */
  lemma AcquiredFindsTask(n: nat, es: seq<Step>, t: State, w: nat)
    requires Reaches(Idle(n), es, t) && w < |t.workers| && t.workers[w].Acquired?
    ensures |t.popped| < |t.submitted|
    ensures Next(t, Pop(w)).workers[w] == Holding(t.submitted[|t.popped|])
  {
    PermitsAccountForTasks(n, es, t);
    SomeAcquired(t.workers, w);
  }

  /** No wake-up is lost: a queued task that no submitter or worker is about to deal with has a permit. */
  lemma NoLostWakeup(n: nat, es: seq<Step>, t: State, w: nat)
    requires Reaches(Idle(n), es, t) && t.tasks != [] && t.releasing == 0
    requires w < |t.workers| && t.workers[w].Waiting? && forall v :: 0 <= v < |t.workers| ==> !t.workers[v].Acquired?
    ensures Enabled(t, Acquire(w))
  {
    PermitsAccountForTasks(n, es, t);
    NoneAcquired(t.workers);
  }

  lemma {:induction false} NoneAcquired(ws: seq<Phase>)
    requires forall v :: 0 <= v < |ws| ==> !ws[v].Acquired?
    ensures CountAcquired(ws) == 0
  {
    if ws != [] {
      NoneAcquired(ws[1..]);
    }
  }

  // ----- each task once -----

  /** Task `x` has been taken from the queue as often as it was run to the end or is in a worker's hands. */
  ghost predicate Conserved(s: State, x: Task) {
    Times(s.popped, x) == Times(s.finished, x) + InHand(s.workers, x)
  }

  lemma NextConserves(s: State, e: Step, x: Task)
    requires Enabled(s, e) && Conserved(s, x)
    ensures Conserved(Next(s, e), x)
  {
    match e
    case Push(_) =>
    case Release =>
    case Acquire(w) => HandUpdate(s.workers, w, Acquired, x);
    case Pop(w) =>
      if s.tasks == [] {
        HandUpdate(s.workers, w, Waiting, x);
      } else {
        HandUpdate(s.workers, w, Holding(s.tasks[0]), x);
        TimesSnoc(s.popped, s.tasks[0], x);
      }
    case Start(w) => HandUpdate(s.workers, w, Running(s.workers[w].task), x);
    case Finish(w) =>
      HandUpdate(s.workers, w, Waiting, x);
      TimesSnoc(s.finished, s.workers[w].task, x);
  }

  lemma {:induction false} RunConserves(s: State, es: seq<Step>, t: State, x: Task)
    requires Conserved(s, x) && Reaches(s, es, t)
    ensures Conserved(t, x)
    decreases |es|
  {
    if es != [] {
      NextConserves(s, es[0], x);
      RunConserves(Next(s, es[0]), es[1..], t, x);
    }
  }

  lemma {:induction false} NothingInHand(ws: seq<Phase>, x: Task)
    requires forall v :: 0 <= v < |ws| ==> ws[v].Waiting?
    ensures InHand(ws, x) == 0
  {
    if ws != [] {
      NothingInHand(ws[1..], x);
    }
  }

  /** Every task is run exactly as often as it was submitted: in every interleaving it is queued, in a worker's
      hands or has been run to the end; when nothing is queued and all workers wait, it has been run. */
  lemma EachTaskOnce(n: nat, es: seq<Step>, t: State, x: Task)
    requires Reaches(Idle(n), es, t)
    ensures Times(t.submitted, x) == Times(t.tasks, x) + InHand(t.workers, x) + Times(t.finished, x)
    ensures t.tasks == [] && (forall v :: 0 <= v < |t.workers| ==> t.workers[v].Waiting?)
            ==> Times(t.finished, x) == Times(t.submitted, x)
  {
    PermitsAccountForTasks(n, es, t);
    NothingInHand(Idle(n).workers, x);
    RunConserves(Idle(n), es, t, x);
    TimesAppend(t.popped, t.tasks, x);
    if forall v :: 0 <= v < |t.workers| ==> t.workers[v].Waiting? { NothingInHand(t.workers, x); }
  }
}
