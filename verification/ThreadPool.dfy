/** The thread pool as a transition system: one step per critical section, notification or task
    body, interleaved in any order. */
module ThreadPool {

  /** Accepted tasks are numbered in the order in which they were pushed. */
  datatype Task = Task(id: nat, weight: int)

  /** `Asleep` is inside `condition.wait`; `Awake` is about to evaluate its predicate under the
      lock; `Returning` has run its task, whose future is ready, and goes back to the loop. */
  datatype Worker = Asleep | Awake | Running(task: Task) | Returning | Exited

  /** `pendingOne` counts producers between releasing the lock and `notify_one`; `pendingAll` is
      the destructor between setting `stop` and `notify_all`. `submitted` and `done` are history. */
  datatype Pool = Pool(
    queue: multiset<Task>, workers: seq<Worker>, stop: bool,
    pendingOne: nat, pendingAll: bool,
    submitted: seq<Task>, done: seq<Task>)

  datatype Action =
    | Enqueue(weight: int)
    | NotifyOne(w: nat)
    | Spurious(w: nat)
    | Check(w: nat, task: Task)
    | Execute(w: nat)
    | Return(w: nat)
    | Stop
    | NotifyAll

  /** The element `tasks.top()` may yield: none has a greater weight. */
  predicate IsTop(queue: multiset<Task>, t: Task) {
    t in queue && forall u :: u in queue ==> u.weight <= t.weight
  }

  predicate Enabled(s: Pool, a: Action) {
    match a
    // on a stopped pool the call throws and changes nothing
    case Enqueue(_) => !s.stop
    // one sleeper is woken if there is one, else the notification is lost
    case NotifyOne(w) =>
      s.pendingOne > 0 && (Asleep in s.workers ==> w < |s.workers| && s.workers[w].Asleep?)
    case Spurious(w) => w < |s.workers| && s.workers[w].Asleep?
    case Check(w, t) =>
      w < |s.workers| && s.workers[w].Awake? && (s.queue != multiset{} ==> IsTop(s.queue, t))
    case Execute(w) => w < |s.workers| && s.workers[w].Running?
    case Return(w) => w < |s.workers| && s.workers[w].Returning?
    case Stop => !s.stop
    case NotifyAll => s.pendingAll
  }

  function WakeAll(workers: seq<Worker>): (r: seq<Worker>)
    ensures |r| == |workers|
  {
    seq(|workers|, w requires 0 <= w < |workers| => if workers[w].Asleep? then Awake else workers[w])
  }

  function Apply(s: Pool, a: Action): Pool
    requires Enabled(s, a)
  {
    match a
    case Enqueue(weight) =>
      var t := Task(|s.submitted|, weight);
      s.(queue := s.queue + multiset{t}, submitted := s.submitted + [t], pendingOne := s.pendingOne + 1)
    case NotifyOne(w) =>
      var s' := s.(pendingOne := s.pendingOne - 1);
      if Asleep in s.workers then s'.(workers := s.workers[w := Awake]) else s'
    case Spurious(w) => s.(workers := s.workers[w := Awake])
    case Check(w, t) =>
      if s.queue != multiset{} then
        s.(queue := s.queue - multiset{t}, workers := s.workers[w := Running(t)])
      else if s.stop then s.(workers := s.workers[w := Exited])
      else s.(workers := s.workers[w := Asleep])
    case Execute(w) =>
      s.(done := s.done + [s.workers[w].task], workers := s.workers[w := Returning])
    case Return(w) => s.(workers := s.workers[w := Awake])
    case Stop => s.(stop := true, pendingAll := true)
    case NotifyAll => s.(pendingAll := false, workers := WakeAll(s.workers))
  }

  /** A new pool: `n` threads on their way into the loop. */
  function Start(n: nat): Pool {
    Pool(multiset{}, seq(n, _ => Awake), false, 0, false, [], [])
  }

  ghost predicate IsRun(s: Pool, actions: seq<Action>, s': Pool)
    decreases |actions|
  {
    if |actions| == 0 then s == s'
    else Enabled(s, actions[0]) && IsRun(Apply(s, actions[0]), actions[1..], s')
  }

  // ---------------------------------------------------------------- summing over the workers

  function Total(f: Worker -> nat, workers: seq<Worker>): nat {
    if |workers| == 0 then 0
    else Total(f, workers[..|workers| - 1]) + f(workers[|workers| - 1])
  }

  /** Counts a worker that will look at the queue before it can sleep, and holds no task. */
  const READY: Worker -> nat := (worker: Worker) => if worker.Awake? || worker.Returning? then 1 else 0

  /** How many steps a worker has left on a stopped pool with an empty queue. */
  const LEFT: Worker -> nat := (worker: Worker) =>
    match worker
    case Asleep => 2
    case Awake => 1
    case Running(_) => 3
    case Returning => 2
    case Exited => 0

  /** Counts the workers that are running `t`. */
  function Holds(t: Task): Worker -> nat {
    (worker: Worker) => if worker == Running(t) then 1 else 0
  }

  lemma {:induction false} TotalUpdate(f: Worker -> nat, workers: seq<Worker>, w: nat, x: Worker)
    requires w < |workers|
    ensures Total(f, workers[w := x]) + f(workers[w]) == Total(f, workers) + f(x)
  {
    var n := |workers| - 1;
    if w < n {
      TotalUpdate(f, workers[..n], w, x);
      assert workers[w := x][..n] == workers[..n][w := x];
    } else {
      assert workers[w := x][..n] == workers[..n];
    }
  }

  /** A count that ranks `Awake` no lower, or no higher, than `Asleep` moves accordingly. */
  lemma {:induction false} WakeAllTotal(f: Worker -> nat, workers: seq<Worker>)
    ensures f(Asleep) <= f(Awake) ==> Total(f, WakeAll(workers)) >= Total(f, workers)
    ensures f(Asleep) >= f(Awake) ==> Total(f, WakeAll(workers)) <= Total(f, workers)
  {
    if |workers| > 0 {
      var n := |workers| - 1;
      WakeAllTotal(f, workers[..n]);
      assert WakeAll(workers)[..n] == WakeAll(workers[..n]);
    }
  }

  lemma {:induction false} TotalPositive(f: Worker -> nat, workers: seq<Worker>) returns (w: nat)
    requires Total(f, workers) > 0
    ensures w < |workers| && f(workers[w]) > 0
  {
    var n := |workers| - 1;
    if f(workers[n]) > 0 {
      w := n;
    } else {
      w := TotalPositive(f, workers[..n]);
    }
  }

  /** How many times `t` occurs in the queue, among the running tasks and in the history. */
  function Places(s: Pool, t: Task): nat {
    s.queue[t] + Total(Holds(t), s.workers) + multiset(s.done)[t]
  }

  // ---------------------------------------------------------------- the invariant

  /** Every accepted task is queued, running or done, and in exactly one place once. */
  ghost predicate Conserves(s: Pool) {
    && (forall i :: 0 <= i < |s.submitted| ==> s.submitted[i].id == i)
    && forall t: Task :: multiset(s.submitted)[t] == Places(s, t)
  }

  /** While a worker sleeps, every queued task has a worker or a notification of its own on the
      way to it. */
  ghost predicate NoLostWakeup(s: Pool) {
    Asleep in s.workers ==> |s.queue| <= s.pendingOne + Total(READY, s.workers)
  }

  ghost predicate StopsCleanly(s: Pool) {
    && (s.pendingAll ==> s.stop)
    && (s.stop && !s.pendingAll ==> Asleep !in s.workers)
    && (Exited in s.workers ==> s.stop && s.queue == multiset{})
  }

  ghost predicate Inv(s: Pool) {
    Conserves(s) && NoLostWakeup(s) && StopsCleanly(s)
  }

  lemma {:induction false} NobodyRuns(workers: seq<Worker>, t: Task)
    requires forall w :: 0 <= w < |workers| ==> !workers[w].Running?
    ensures Total(Holds(t), workers) == 0
  {
    if |workers| > 0 {
      NobodyRuns(workers[..|workers| - 1], t);
    }
  }

  lemma StartInv(n: nat)
    ensures Inv(Start(n))
  {
    forall t: Task
      ensures Places(Start(n), t) == 0
    {
      NobodyRuns(Start(n).workers, t);
    }
  }

  lemma CountAppended(tasks: seq<Task>, x: Task, t: Task)
    ensures multiset(tasks + [x])[t] == multiset(tasks)[t] + if t == x then 1 else 0
  {
  }

  /** A step moves tasks between places; only `Enqueue` adds one. */
  lemma StepKeepsPlaces(s: Pool, a: Action, t: Task)
    requires Enabled(s, a)
    ensures Places(Apply(s, a), t) == Places(s, t)
         + if a.Enqueue? && t == Task(|s.submitted|, a.weight) then 1 else 0
  {
    hide Total, WakeAll, IsTop;
    match a
    case NotifyOne(w) =>
      if Asleep in s.workers {
        TotalUpdate(Holds(t), s.workers, w, Awake);
      }
    case Spurious(w) => TotalUpdate(Holds(t), s.workers, w, Awake);
    case Check(w, u) => CheckKeepsPlaces(s, w, u, t);
    case Execute(w) => ExecuteKeepsPlaces(s, w, t);
    case Return(w) => TotalUpdate(Holds(t), s.workers, w, Awake);
    case NotifyAll => WakeAllTotal(Holds(t), s.workers);
    case Enqueue(_) =>
    case Stop =>
  }

  lemma CheckKeepsPlaces(s: Pool, w: nat, u: Task, t: Task)
    requires Enabled(s, Check(w, u))
    ensures Places(Apply(s, Check(w, u)), t) == Places(s, t)
  {
    hide Total, WakeAll;
    var next := if s.queue != multiset{} then Running(u) else if s.stop then Exited else Asleep;
    TotalUpdate(Holds(t), s.workers, w, next);
  }

  lemma ExecuteKeepsPlaces(s: Pool, w: nat, t: Task)
    requires Enabled(s, Execute(w))
    ensures Places(Apply(s, Execute(w)), t) == Places(s, t)
  {
    hide Total, WakeAll, IsTop;
    TotalUpdate(Holds(t), s.workers, w, Returning);
    CountAppended(s.done, s.workers[w].task, t);
  }

  lemma StepConserves(s: Pool, a: Action)
    requires Conserves(s) && Enabled(s, a)
    ensures Conserves(Apply(s, a))
  {
    hide Enabled, Places;
    forall t: Task
      ensures multiset(Apply(s, a).submitted)[t] == Places(Apply(s, a), t)
    {
      StepKeepsPlaces(s, a, t);
      if a.Enqueue? {
        CountAppended(s.submitted, Task(|s.submitted|, a.weight), t);
      }
    }
  }

  lemma StepNoLostWakeup(s: Pool, a: Action)
    requires NoLostWakeup(s) && Enabled(s, a)
    ensures NoLostWakeup(Apply(s, a))
  {
    hide Total, WakeAll;
    match a
    case NotifyOne(w) =>
      if Asleep in s.workers {
        AfterUpdate(s.workers, w, Awake);
        TotalUpdate(READY, s.workers, w, Awake);
      }
    case Spurious(w) =>
      AfterUpdate(s.workers, w, Awake);
      TotalUpdate(READY, s.workers, w, Awake);
    case Check(w, t) =>
      AfterUpdate(s.workers, w, Running(t));
      TotalUpdate(READY, s.workers, w, Running(t));
      TakingShrinks(s.queue, t);
      AfterUpdate(s.workers, w, Exited);
      TotalUpdate(READY, s.workers, w, Exited);
    case Execute(w) =>
      AfterUpdate(s.workers, w, Returning);
      TotalUpdate(READY, s.workers, w, Returning);
    case Return(w) =>
      AfterUpdate(s.workers, w, Awake);
      TotalUpdate(READY, s.workers, w, Awake);
    case NotifyAll => AfterWakeAll(s.workers);
    case Enqueue(_) =>
    case Stop =>
  }

  lemma AfterUpdate(workers: seq<Worker>, w: nat, x: Worker)
    requires w < |workers|
    ensures forall y :: y in workers[w := x] ==> y == x || y in workers
  {
  }

  lemma AfterWakeAll(workers: seq<Worker>)
    ensures Asleep !in WakeAll(workers)
    ensures Exited in WakeAll(workers) ==> Exited in workers
  {
  }

  lemma StepStopsCleanly(s: Pool, a: Action)
    requires StopsCleanly(s) && Enabled(s, a)
    ensures StopsCleanly(Apply(s, a))
  {
    hide Total, WakeAll;
    match a
    case NotifyOne(w) =>
      if Asleep in s.workers {
        AfterUpdate(s.workers, w, Awake);
      }
    case Spurious(w) => AfterUpdate(s.workers, w, Awake);
    case Check(w, t) =>
      AfterUpdate(s.workers, w, Running(t));
      AfterUpdate(s.workers, w, Exited);
      AfterUpdate(s.workers, w, Asleep);
    case Execute(w) => AfterUpdate(s.workers, w, Returning);
    case Return(w) => AfterUpdate(s.workers, w, Awake);
    case NotifyAll => AfterWakeAll(s.workers);
    case Enqueue(_) =>
    case Stop =>
  }

  lemma {:induction false} RunInv(s: Pool, actions: seq<Action>, s': Pool)
    requires Inv(s) && IsRun(s, actions, s')
    ensures Inv(s')
    decreases |actions|
  {
    hide Inv, Enabled, Apply;
    if |actions| > 0 {
      StepInv(s, actions[0]);
      RunInv(Apply(s, actions[0]), actions[1..], s');
    }
  }

  lemma StepInv(s: Pool, a: Action)
    requires Inv(s) && Enabled(s, a)
    ensures Inv(Apply(s, a))
  {
    hide Conserves, NoLostWakeup, StopsCleanly, Apply, Enabled;
    StepConserves(s, a);
    StepNoLostWakeup(s, a);
    StepStopsCleanly(s, a);
  }

  // ---------------------------------------------------------------- what follows in every reachable state

  /** No lost wake-up: a queued task has a worker that will look for it, or a notification. */
  lemma QueuedMeansWoken(s: Pool)
    requires Inv(s) && |s.workers| > 0 && s.queue != multiset{}
    ensures s.pendingOne > 0
         || exists w :: 0 <= w < |s.workers| && !s.workers[w].Asleep? && !s.workers[w].Exited?
  {
    if Asleep in s.workers {
      if s.pendingOne == 0 {
        var w := TotalPositive(READY, s.workers);
      }
    } else {
      assert !s.workers[0].Asleep? && !s.workers[0].Exited?;
    }
  }

  lemma {:induction false} DistinctCount(tasks: seq<Task>, t: Task)
    requires forall i :: 0 <= i < |tasks| ==> tasks[i].id == i
    ensures multiset(tasks)[t] <= 1
    ensures t in multiset(tasks) ==> t.id < |tasks| && tasks[t.id] == t
  {
    if |tasks| > 0 {
      var init, last := tasks[..|tasks| - 1], tasks[|tasks| - 1];
      DistinctCount(init, t);
      assert tasks == init + [last];
    }
  }

  /** No task runs twice, runs again after it is done, or runs while still queued. */
  lemma RunsOnce(s: Pool, t: Task)
    requires Inv(s)
    ensures Places(s, t) == if t in s.submitted then 1 else 0
  {
    DistinctCount(s.submitted, t);
    assert multiset(s.submitted)[t] == Places(s, t);
  }

  lemma {:induction false} SomeTop(queue: multiset<Task>) returns (t: Task)
    requires queue != multiset{}
    ensures IsTop(queue, t)
    decreases |queue|
  {
    var u :| u in queue;
    var rest := queue - multiset{u};
    if rest == multiset{} {
      t := u;
      assert queue == multiset{u};
    } else {
      var v := SomeTop(rest);
      t := if u.weight <= v.weight then v else u;
      assert queue == rest + multiset{u};
    }
  }

  /** A step that the pool makes by itself, without a new task, `stop` or a spurious wake-up. */
  predicate OwnStep(a: Action) {
    !a.Enqueue? && !a.Stop? && !a.Spurious?
  }

  lemma StepForTask(s: Pool) returns (a: Action)
    requires Inv(s) && |s.workers| > 0
    requires s.queue != multiset{} || exists w :: 0 <= w < |s.workers| && s.workers[w].Running?
    ensures Enabled(s, a) && OwnStep(a)
  {
    hide Conserves, Total;
    if s.queue == multiset{} {
      var w :| 0 <= w < |s.workers| && s.workers[w].Running?;
      a := Execute(w);
    } else {
      QueuedMeansWoken(s);
      if s.pendingOne > 0 {
        var w := if Asleep in s.workers then SleeperOf(s.workers) else 0;
        a := NotifyOne(w);
      } else {
        var w :| 0 <= w < |s.workers| && !s.workers[w].Asleep? && !s.workers[w].Exited?;
        var t := SomeTop(s.queue);
        a := if s.workers[w].Running? then Execute(w) else if s.workers[w].Returning? then Return(w) else Check(w, t);
      }
    }
  }

  ghost function SleeperOf(workers: seq<Worker>): (w: nat)
    requires Asleep in workers
    ensures w < |workers| && workers[w].Asleep?
  {
    var w: nat :| w < |workers| && workers[w] == Asleep;
    w
  }

  /** No task is left behind: when the pool has come to rest, whether stopped or not, every
      accepted task is done. */
  lemma RestMeansDone(s: Pool)
    requires Inv(s) && |s.workers| > 0
    requires forall a :: Enabled(s, a) ==> !OwnStep(a)
    ensures s.queue == multiset{} && multiset(s.done) == multiset(s.submitted)
  {
    hide Enabled, OwnStep, NoLostWakeup, StopsCleanly;
    if s.queue != multiset{} || exists w :: 0 <= w < |s.workers| && s.workers[w].Running? {
      var a := StepForTask(s);
    }
    forall t: Task
      ensures multiset(s.done)[t] == multiset(s.submitted)[t]
    {
      NobodyRuns(s.workers, t);
      assert multiset(s.submitted)[t] == Places(s, t);
    }
  }

  /** Steps ahead of a worker before it sleeps. */
  const AHEAD: Worker -> nat := (worker: Worker) =>
    match worker
    case Asleep => 0
    case Awake => 1
    case Running(_) => 3
    case Returning => 2
    case Exited => 0

  function Work(s: Pool): nat {
    4 * |s.queue| + Total(AHEAD, s.workers)
  }

  function SpuriousCount(actions: seq<Action>): nat {
    if |actions| == 0 then 0 else (if actions[0].Spurious? then 1 else 0) + SpuriousCount(actions[1..])
  }

  /** A step of the pool's own makes progress; a spurious wake-up undoes at most one such step. */
  lemma StepWorks(s: Pool, a: Action)
    requires !s.stop && !s.pendingAll && Enabled(s, a) && !a.Enqueue? && !a.Stop?
    ensures Work(Apply(s, a)) + 2 * Apply(s, a).pendingOne
         <= if a.Spurious? then Work(s) + 2 * s.pendingOne + 1 else Work(s) + 2 * s.pendingOne - 1
  {
    hide Total, WakeAll;
    match a
    case NotifyOne(w) =>
      if Asleep in s.workers {
        TotalUpdate(AHEAD, s.workers, w, Awake);
      }
    case Spurious(w) => TotalUpdate(AHEAD, s.workers, w, Awake);
    case Check(w, t) => CheckWorks(s, w, t);
    case Execute(w) => TotalUpdate(AHEAD, s.workers, w, Returning);
    case Return(w) => TotalUpdate(AHEAD, s.workers, w, Awake);
  }

  lemma CheckWorks(s: Pool, w: nat, t: Task)
    requires !s.stop && Enabled(s, Check(w, t))
    ensures Work(Apply(s, Check(w, t))) <= Work(s) - 1
  {
    hide Total;
    TakingShrinks(s.queue, t);
    TotalUpdate(AHEAD, s.workers, w, if s.queue != multiset{} then Running(t) else Asleep);
  }

  /** Left alone the pool comes to rest: with k spurious wake-ups it makes at most `Work` steps,
      two more per pending notification and 2k, and when it can make no other step every accepted
      task is done. Any number of producers may have been at work before. */
  lemma {:induction false} ComesToRest(s: Pool, actions: seq<Action>, s': Pool)
    requires Inv(s) && !s.stop && |s.workers| > 0 && IsRun(s, actions, s')
    requires forall a <- actions :: !a.Enqueue? && !a.Stop?
    ensures |actions| <= Work(s) + 2 * s.pendingOne + 2 * SpuriousCount(actions)
    ensures (forall a :: Enabled(s', a) ==> !OwnStep(a)) ==>
              s'.queue == multiset{} && multiset(s'.done) == multiset(s.submitted)
    decreases |actions|
  {
    hide Inv, Enabled, Apply, Work, OwnStep;
    if |actions| == 0 {
      if forall a :: Enabled(s, a) ==> !OwnStep(a) {
        RestMeansDone(s);
      }
    } else {
      var a := actions[0];
      NotPendingAll(s);
      StepInv(s, a);
      StepWorks(s, a);
      StepKeepsRest(s, a);
      ComesToRest(Apply(s, a), actions[1..], s');
    }
  }

  lemma NotPendingAll(s: Pool)
    requires Inv(s) && !s.stop
    ensures !s.pendingAll
  {
  }

  lemma StepKeepsRest(s: Pool, a: Action)
    requires Enabled(s, a) && !a.Enqueue? && !a.Stop?
    ensures Apply(s, a).submitted == s.submitted && Apply(s, a).stop == s.stop
    ensures |Apply(s, a).workers| == |s.workers|
  {
  }

  predicate AllExited(s: Pool) {
    forall w :: 0 <= w < |s.workers| ==> s.workers[w].Exited?
  }

  /** Once the destructor has joined every worker, every accepted task is done. */
  lemma Drained(s: Pool)
    requires Inv(s) && |s.workers| > 0 && AllExited(s)
    ensures s.queue == multiset{} && multiset(s.done) == multiset(s.submitted)
  {
    assert s.workers[0].Exited?;
    forall t: Task
      ensures multiset(s.done)[t] == multiset(s.submitted)[t]
    {
      NobodyRuns(s.workers, t);
      assert multiset(s.submitted)[t] == Places(s, t);
    }
  }

  /** Steps left on a stopped pool. */
  function Remaining(s: Pool): nat {
    4 * |s.queue| + s.pendingOne + (if s.pendingAll then 1 else 0) + Total(LEFT, s.workers)
  }

  /** After `stop`, every step of every kind brings the pool closer to its end. */
  lemma StepAfterStop(s: Pool, a: Action)
    requires s.stop && Enabled(s, a)
    ensures Apply(s, a).stop && Remaining(Apply(s, a)) < Remaining(s)
  {
    hide Total, WakeAll, IsTop;
    match a
    case NotifyOne(w) =>
      if Asleep in s.workers {
        TotalUpdate(LEFT, s.workers, w, Awake);
      }
    case Spurious(w) => TotalUpdate(LEFT, s.workers, w, Awake);
    case Check(w, t) => CheckAfterStop(s, w, t);
    case Execute(w) => TotalUpdate(LEFT, s.workers, w, Returning);
    case Return(w) => TotalUpdate(LEFT, s.workers, w, Awake);
    case NotifyAll => WakeAllTotal(LEFT, s.workers);
  }

  lemma CheckAfterStop(s: Pool, w: nat, t: Task)
    requires s.stop && Enabled(s, Check(w, t))
    ensures Remaining(Apply(s, Check(w, t))) < Remaining(s)
  {
    hide Total, WakeAll;
    TotalUpdate(LEFT, s.workers, w, if s.queue != multiset{} then Running(t) else Exited);
    TakingShrinks(s.queue, t);
  }

  lemma TakingShrinks(queue: multiset<Task>, t: Task)
    ensures t in queue ==> |queue| == |queue - multiset{t}| + 1
  {
  }

  /** A stopped pool cannot get stuck before all its workers are gone, and does not depend on
      spurious wake-ups for that. */
  lemma NotStuckAfterStop(s: Pool) returns (a: Action)
    requires Inv(s) && s.stop && !AllExited(s)
    ensures Enabled(s, a) && !a.Spurious?
  {
    var w :| 0 <= w < |s.workers| && !s.workers[w].Exited?;
    match s.workers[w]
    case Asleep => a := NotifyAll;
    case Awake =>
      if s.queue == multiset{} {
        a := Check(w, Task(0, 0));
      } else {
        var t := SomeTop(s.queue);
        a := Check(w, t);
      }
    case Running(_) => a := Execute(w);
    case Returning => a := Return(w);
  }

  /** Full drain: from any reachable state in which `stop` is set, every run is of bounded
      length, and one that cannot be continued has finished every accepted task. */
  lemma {:induction false} DrainTerminates(s: Pool, actions: seq<Action>, s': Pool)
    requires Inv(s) && s.stop && |s.workers| > 0 && IsRun(s, actions, s')
    ensures |actions| <= Remaining(s)
    ensures (forall a :: Enabled(s', a) ==> a.Spurious?) ==>
              AllExited(s') && s'.submitted == s.submitted && multiset(s'.done) == multiset(s.submitted)
    decreases |actions|
  {
    hide Inv, Enabled, Apply, Remaining, AllExited;
    if |actions| == 0 {
      if forall a :: Enabled(s, a) ==> a.Spurious? {
        if !AllExited(s) {
          var a := NotStuckAfterStop(s);
        }
        Drained(s);
      }
    } else {
      var next := Apply(s, actions[0]);
      StepInv(s, actions[0]);
      StepAfterStop(s, actions[0]);
      StoppedSubmits(s, actions[0]);
      DrainTerminates(next, actions[1..], s');
    }
  }

  lemma StoppedSubmits(s: Pool, a: Action)
    requires s.stop && Enabled(s, a)
    ensures Apply(s, a).submitted == s.submitted && |Apply(s, a).workers| == |s.workers|
  {
  }

  lemma RunOneMore(s: Pool, a: Action, actions: seq<Action>, s': Pool)
    requires Enabled(s, a) && IsRun(Apply(s, a), actions, s')
    ensures IsRun(s, [a] + actions, s')
  {
    hide Enabled, Apply;
    assert ([a] + actions)[1..] == actions;
  }

  /** A worker that comes round to the queue takes a task of the greatest weight and runs it. */
  lemma TakesTop(s: Pool, t: Task, actions: seq<Action>, s': Pool)
    requires s.workers == [Awake] && IsTop(s.queue, t)
    requires IsRun(s.(queue := s.queue - multiset{t}, done := s.done + [t]), actions, s')
    ensures IsRun(s, [Check(0, t)] + ([Execute(0)] + ([Return(0)] + actions)), s')
  {
    hide IsRun;
    var s1 := Apply(s, Check(0, t));
    var s2 := Apply(s1, Execute(0));
    assert Apply(s2, Return(0)) == s.(queue := s.queue - multiset{t}, done := s.done + [t]);
    RunOneMore(s2, Return(0), actions, s');
    RunOneMore(s1, Execute(0), [Return(0)] + actions, s');
    RunOneMore(s, Check(0, t), [Execute(0)] + ([Return(0)] + actions), s');
  }

  /** One worker, after submissions of weight 1 and 2. */
  const BOTH_QUEUED := Pool(multiset{Task(0, 1), Task(1, 2)}, [Awake], false, 2, false,
                            [Task(0, 1), Task(1, 2)], [])

  lemma QueueBoth(actions: seq<Action>, s': Pool)
    requires IsRun(BOTH_QUEUED, actions, s')
    ensures IsRun(Start(1), [Enqueue(1)] + ([Enqueue(2)] + actions), s')
  {
    hide IsRun;
    var s1 := Apply(Start(1), Enqueue(1));
    assert s1.submitted == [Task(0, 1)];
    assert Apply(s1, Enqueue(2)) == BOTH_QUEUED;
    RunOneMore(s1, Enqueue(2), actions, s');
    RunOneMore(Start(1), Enqueue(1), [Enqueue(2)] + actions, s');
  }

  /** Left to itself the pool may finish tasks in another order than they were submitted. */
  lemma PriorityReorders() returns (actions: seq<Action>, s': Pool)
    ensures IsRun(Start(1), actions, s')
    ensures s'.submitted == [Task(0, 1), Task(1, 2)]
    ensures s'.done == [Task(1, 2), Task(0, 1)]
  {
    hide Apply, Enabled;
    var t0, t1 := Task(0, 1), Task(1, 2);
    var s := BOTH_QUEUED.(queue := BOTH_QUEUED.queue - multiset{t1}, done := [] + [t1]);
    s' := s.(queue := s.queue - multiset{t0}, done := s.done + [t0]);
    assert IsRun(s', [], s');
    hide IsRun;
    TakesTop(s, t0, [], s');
    actions := [Check(0, t0)] + ([Execute(0)] + ([Return(0)] + []));
    TakesTop(BOTH_QUEUED, t1, actions, s');
    actions := [Check(0, t1)] + ([Execute(0)] + ([Return(0)] + actions));
    QueueBoth(actions, s');
    actions := [Enqueue(1)] + ([Enqueue(2)] + actions);
  }
}
