/** The thread pool together with its only producer, the event loop, which waits for each
    write before it goes on (`Client::sendData`). */
module OrderedWrites {
  import opened Bytes
  import opened ThreadPool

  /** One call of `sendData`. `taken` is what `SSL_write` will return for it: negative on an error,
      else the number of bytes that go out on the client's connection. */
  datatype Call = Call(client: int, data: seq<byte>, weight: int, taken: int)

  function BytesTaken(call: Call): seq<byte> {
    if call.taken <= 0 then [] else if call.taken >= |call.data| then call.data else call.data[..call.taken]
  }

  /** Where the event loop is: outside `sendData`, between the push and the notification, or
      waiting for the future of what it pushed last. */
  datatype Phase = Outside | Notifying | Waiting

  datatype System = System(pool: Pool, phase: Phase)

  datatype Event =
    | Submit
    | Notify(w: nat)
    | Resume
    | Internal(action: Action)

  /** The future of the last task is ready. */
  predicate Ready(s: System) {
    |s.pool.submitted| > 0 && s.pool.submitted[|s.pool.submitted| - 1] in s.pool.done
  }

  /** `calls` is what the event loop is going to send. The pool is a static object: it is
      destroyed on the same thread, after the last call. */
  predicate CanHappen(calls: seq<Call>, s: System, e: Event) {
    match e
    case Submit => s.phase.Outside? && |s.pool.submitted| < |calls| && !s.pool.stop
    case Notify(w) => s.phase.Notifying? && Enabled(s.pool, NotifyOne(w))
    case Resume => s.phase.Waiting? && Ready(s)
    case Internal(a) =>
      && Enabled(s.pool, a)
      && !a.Enqueue? && !a.NotifyOne?
      && (a.Stop? ==> s.phase.Outside?)
  }

  function Happen(calls: seq<Call>, s: System, e: Event): System
    requires CanHappen(calls, s, e)
  {
    match e
    case Submit => System(Apply(s.pool, Enqueue(calls[|s.pool.submitted|].weight)), Notifying)
    case Notify(w) => System(Apply(s.pool, NotifyOne(w)), Waiting)
    case Resume => s.(phase := Outside)
    case Internal(a) => s.(pool := Apply(s.pool, a))
  }

  ghost predicate Reaches(calls: seq<Call>, s: System, events: seq<Event>, s': System)
    decreases |events|
  {
    if |events| == 0 then s == s'
    else CanHappen(calls, s, events[0]) && Reaches(calls, Happen(calls, s, events[0]), events[1..], s')
  }

  /** The calls whose data has been written, in the order of the writes. */
  function Written(calls: seq<Call>, done: seq<Task>): seq<Call>
    requires forall t <- done :: t.id < |calls|
  {
    if |done| == 0 then []
    else Written(calls, done[..|done| - 1]) + [calls[done[|done| - 1].id]]
  }

  /** Counts a worker that holds a task. */
  const BUSY: Worker -> nat := (worker: Worker) => if worker.Running? then 1 else 0

  // ---------------------------------------------------------------- the invariant

  /** Task number `i` was pushed by call number `i`. */
  ghost predicate Submitted(calls: seq<Call>, s: Pool) {
    && |s.submitted| <= |calls|
    && forall i :: 0 <= i < |s.submitted| ==> s.submitted[i] == Task(i, calls[i].weight)
  }

  ghost predicate OneAtATime(s: System) {
    && s.pool.done <= s.pool.submitted
    && |s.pool.submitted| <= |s.pool.done| + 1
    && |s.pool.queue| + Total(BUSY, s.pool.workers) == |s.pool.submitted| - |s.pool.done|
    && (s.phase.Outside? ==> s.pool.done == s.pool.submitted)
    && s.pool.pendingOne == (if s.phase.Notifying? then 1 else 0)
    && (!s.phase.Outside? ==> !s.pool.stop && |s.pool.submitted| > 0)
  }

  ghost predicate SystemInv(calls: seq<Call>, s: System) {
    Inv(s.pool) && Submitted(calls, s.pool) && OneAtATime(s)
  }

  lemma {:induction false} TotalAtLeast(f: Worker -> nat, workers: seq<Worker>, w: nat)
    requires w < |workers|
    ensures Total(f, workers) >= f(workers[w])
  {
    var n := |workers| - 1;
    if w < n {
      TotalAtLeast(f, workers[..n], w);
    }
  }

  /** A running task is the first one that is not done. */
  lemma RunningIsNext(s: System, w: nat)
    requires Inv(s.pool) && OneAtATime(s)
    requires w < |s.pool.workers| && s.pool.workers[w].Running?
    ensures |s.pool.submitted| == |s.pool.done| + 1
    ensures s.pool.workers[w].task == s.pool.submitted[|s.pool.done|]
  {
    hide Inv, Total;
    var t := s.pool.workers[w].task;
    TotalAtLeast(BUSY, s.pool.workers, w);
    TotalAtLeast(Holds(t), s.pool.workers, w);
    RunsOnce(s.pool, t);
    assert t in s.pool.submitted && t !in multiset(s.pool.done);
    assert t !in s.pool.done;
  }

  lemma SubmitKeepsOne(calls: seq<Call>, s: System)
    requires OneAtATime(s) && CanHappen(calls, s, Submit)
    ensures OneAtATime(Happen(calls, s, Submit))
  {
    hide Total;
  }

  lemma NotifyKeepsOne(calls: seq<Call>, s: System, w: nat)
    requires OneAtATime(s) && CanHappen(calls, s, Notify(w))
    ensures OneAtATime(Happen(calls, s, Notify(w)))
  {
    hide Total;
    if Asleep in s.pool.workers {
      TotalUpdate(BUSY, s.pool.workers, w, Awake);
    }
  }

  lemma CheckKeepsOne(calls: seq<Call>, s: System, w: nat, t: Task)
    requires OneAtATime(s) && CanHappen(calls, s, Internal(Check(w, t)))
    ensures OneAtATime(Happen(calls, s, Internal(Check(w, t))))
  {
    hide Total;
    var next := if s.pool.queue != multiset{} then Running(t) else if s.pool.stop then Exited else Asleep;
    TakingShrinks(s.pool.queue, t);
    TotalUpdate(BUSY, s.pool.workers, w, next);
  }

  lemma ExecuteKeepsOne(calls: seq<Call>, s: System, w: nat)
    requires Inv(s.pool) && OneAtATime(s) && CanHappen(calls, s, Internal(Execute(w)))
    ensures OneAtATime(Happen(calls, s, Internal(Execute(w))))
  {
    hide Total, Inv;
    RunningIsNext(s, w);
    TotalUpdate(BUSY, s.pool.workers, w, Returning);
  }

  lemma InternalKeepsOne(calls: seq<Call>, s: System, a: Action)
    requires Inv(s.pool) && OneAtATime(s) && CanHappen(calls, s, Internal(a))
    ensures OneAtATime(Happen(calls, s, Internal(a)))
  {
    hide Total, Inv, IsTop, WakeAll;
    match a
    case Spurious(w) => TotalUpdate(BUSY, s.pool.workers, w, Awake);
    case Check(w, t) => CheckKeepsOne(calls, s, w, t);
    case Execute(w) => ExecuteKeepsOne(calls, s, w);
    case Return(w) => TotalUpdate(BUSY, s.pool.workers, w, Awake);
    case NotifyAll => WakeAllTotal(BUSY, s.pool.workers);
    case Stop =>
  }

  lemma ResumeKeepsOne(calls: seq<Call>, s: System)
    requires Inv(s.pool) && OneAtATime(s) && CanHappen(calls, s, Resume)
    ensures OneAtATime(Happen(calls, s, Resume))
  {
    hide Total;
    var last := |s.pool.submitted| - 1;
    assert forall i :: 0 <= i < last ==> s.pool.submitted[i] != s.pool.submitted[last];
    assert s.pool.submitted[last] !in s.pool.submitted[..last];
  }

  lemma EventKeepsSubmitted(calls: seq<Call>, s: System, e: Event)
    requires Submitted(calls, s.pool) && CanHappen(calls, s, e)
    ensures Submitted(calls, Happen(calls, s, e).pool)
  {
    hide IsTop, WakeAll;
  }

  lemma EventKeepsInv(calls: seq<Call>, s: System, e: Event)
    requires SystemInv(calls, s) && CanHappen(calls, s, e)
    ensures SystemInv(calls, Happen(calls, s, e))
  {
    EventKeepsSubmitted(calls, s, e);
    hide Inv, Apply, Enabled, Submitted, OneAtATime, Ready;
    match e
    case Submit =>
      assert Enabled(s.pool, Enqueue(calls[|s.pool.submitted|].weight)) by {
        SubmitEnabled(calls, s);
      }
      StepInv(s.pool, Enqueue(calls[|s.pool.submitted|].weight));
      SubmitKeepsOne(calls, s);
    case Notify(w) =>
      StepInv(s.pool, NotifyOne(w));
      NotifyKeepsOne(calls, s, w);
    case Resume => ResumeKeepsOne(calls, s);
    case Internal(a) =>
      StepInv(s.pool, a);
      InternalKeepsOne(calls, s, a);
  }

  lemma SubmitEnabled(calls: seq<Call>, s: System)
    requires CanHappen(calls, s, Submit)
    ensures Enabled(s.pool, Enqueue(calls[|s.pool.submitted|].weight))
  {
  }

  lemma {:induction false} ReachesInv(calls: seq<Call>, s: System, events: seq<Event>, s': System)
    requires SystemInv(calls, s) && Reaches(calls, s, events, s')
    ensures SystemInv(calls, s')
    decreases |events|
  {
    hide SystemInv, CanHappen, Happen;
    if |events| > 0 {
      EventKeepsInv(calls, s, events[0]);
      ReachesInv(calls, Happen(calls, s, events[0]), events[1..], s');
    }
  }

  lemma {:induction false} NobodyBusy(workers: seq<Worker>)
    requires forall w :: 0 <= w < |workers| ==> !workers[w].Running?
    ensures Total(BUSY, workers) == 0
  {
    if |workers| > 0 {
      NobodyBusy(workers[..|workers| - 1]);
    }
  }

  // ---------------------------------------------------------------- order of the writes

  lemma {:induction false} WrittenInOrder(calls: seq<Call>, done: seq<Task>)
    requires |done| <= |calls| && forall i :: 0 <= i < |done| ==> done[i].id == i
    ensures Written(calls, done) == calls[..|done|]
  {
    if |done| > 0 {
      WrittenInOrder(calls, done[..|done| - 1]);
    }
  }

  /** Whatever the number of workers, the weights, the wake-ups and the interleaving: no two
      tasks are ever in the pool at once, the writes so far are the first calls in the order of
      the calls, and outside `sendData` all calls made have been written. */
  lemma WritesInOrder(calls: seq<Call>, n: nat, events: seq<Event>, s: System)
    requires Reaches(calls, System(Start(n), Outside), events, s)
    ensures |s.pool.queue| + Total(BUSY, s.pool.workers) <= 1
    ensures |s.pool.submitted| <= |calls| && forall t <- s.pool.done :: t.id < |calls|
    ensures Written(calls, s.pool.done) <= calls[..|s.pool.submitted|]
    ensures s.phase.Outside? ==> Written(calls, s.pool.done) == calls[..|s.pool.submitted|]
  {
    StartInv(n);
    NobodyBusy(Start(n).workers);
    ReachesInv(calls, System(Start(n), Outside), events, s);
    hide Inv, Reaches, Total;
    assert forall i :: 0 <= i < |s.pool.done| ==> s.pool.done[i] == s.pool.submitted[i];
    WrittenInOrder(calls, s.pool.done);
  }

  /** What goes out to one client, byte by byte. */
  function SentTo(client: int, calls: seq<Call>): seq<byte> {
    if |calls| == 0 then []
    else SentTo(client, calls[..|calls| - 1])
         + if calls[|calls| - 1].client == client then BytesTaken(calls[|calls| - 1]) else []
  }

  lemma {:induction false} SentToPrefix(client: int, calls: seq<Call>, n: nat)
    requires n <= |calls|
    ensures SentTo(client, calls[..n]) <= SentTo(client, calls)
  {
    if n < |calls| {
      assert calls[..|calls| - 1][..n] == calls[..n];
      SentToPrefix(client, calls[..|calls| - 1], n);
    } else {
      assert calls[..n] == calls;
    }
  }

  /** Every client receives a prefix of what the calls for it put on its connection. */
  lemma ClientsReceiveInOrder(calls: seq<Call>, n: nat, events: seq<Event>, s: System, client: int)
    requires Reaches(calls, System(Start(n), Outside), events, s)
    ensures forall t <- s.pool.done :: t.id < |calls|
    ensures SentTo(client, Written(calls, s.pool.done)) <= SentTo(client, calls)
  {
    WritesInOrder(calls, n, events, s);
    var w := Written(calls, s.pool.done);
    hide Reaches, Written;
    assert w == calls[..|s.pool.submitted|][..|w|] == calls[..|w|];
    SentToPrefix(client, calls, |w|);
  }

  // ---------------------------------------------------------------- sendData returns

  predicate WorkerStep(a: Action) {
    a.Spurious? || a.Check? || a.Execute? || a.Return?
  }

  /** While the event loop waits in vain, some worker has something to do. */
  lemma NotStuckWaiting(calls: seq<Call>, s: System) returns (a: Action)
    requires SystemInv(calls, s) && s.phase.Waiting? && !Ready(s) && |s.pool.workers| > 0
    ensures CanHappen(calls, s, Internal(a)) && WorkerStep(a) && !a.Spurious?
  {
    var p := s.pool;
    if p.queue == multiset{} {
      assert Total(BUSY, p.workers) > 0 by {
        assert p.done != p.submitted ==> |p.submitted| == |p.done| + 1;
      }
      var w := TotalPositive(BUSY, p.workers);
      a := Execute(w);
    } else {
      QueuedMeansWoken(p);
      var w :| 0 <= w < |p.workers| && !p.workers[w].Asleep? && !p.workers[w].Exited?;
      var t := SomeTop(p.queue);
      a := if p.workers[w].Running? then Execute(w) else if p.workers[w].Returning? then Return(w) else Check(w, t);
    }
  }

  /** The workers' steps between two events of the event loop. */
  function AsEvents(actions: seq<Action>): seq<Event> {
    seq(|actions|, i requires 0 <= i < |actions| => Internal(actions[i]))
  }

  /** `sendData` does not hang: with k spurious wake-ups the workers make at most `Work` + 2k
      steps while it waits, and they do not stop before its future is ready. */
  lemma {:induction false} WaitEnds(calls: seq<Call>, s: System, actions: seq<Action>, s': System)
    requires SystemInv(calls, s) && s.phase.Waiting? && |s.pool.workers| > 0
    requires forall a <- actions :: WorkerStep(a)
    requires Reaches(calls, s, AsEvents(actions), s')
    ensures |actions| <= Work(s.pool) + 2 * SpuriousCount(actions)
    ensures (forall a | WorkerStep(a) && !a.Spurious? :: !CanHappen(calls, s', Internal(a))) ==> Ready(s')
    decreases |actions|
  {
    hide SystemInv, Ready, Work, WorkerStep;
    if |actions| == 0 {
      if !Ready(s) {
        var a := NotStuckWaiting(calls, s);
      }
    } else {
      var a := actions[0];
      assert AsEvents(actions)[0] == Internal(a);
      assert AsEvents(actions)[1..] == AsEvents(actions[1..]);
      NotStoppedWhileWaiting(calls, s);
      SamePending(s.pool, a);
      StepWorks(s.pool, a);
      EventKeepsInv(calls, s, Internal(a));
      SameWorkers(s.pool, a);
      WaitEnds(calls, Happen(calls, s, Internal(a)), actions[1..], s');
    }
  }

  lemma SamePending(s: Pool, a: Action)
    requires Enabled(s, a) && WorkerStep(a)
    ensures Apply(s, a).pendingOne == s.pendingOne && !a.Enqueue? && !a.Stop?
  {
  }

  lemma NotStoppedWhileWaiting(calls: seq<Call>, s: System)
    requires SystemInv(calls, s) && s.phase.Waiting?
    ensures !s.pool.stop && !s.pool.pendingAll
  {
  }

  lemma SameWorkers(s: Pool, a: Action)
    requires Enabled(s, a)
    ensures |Apply(s, a).workers| == |s.workers|
  {
  }
}
