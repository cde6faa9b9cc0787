/** Every interleaving of submitters, cancellers, one or more stops and the worker threads. */
module ExecutorRuns {
  import opened Wrappers
  import opened SearchContextModel
  import opened ExecutorSteps

  /** Where a worker is in its loop. */
  datatype Thread =
    | Idle
    | Taken(task: nat)                       // dequeued, context not checked yet
    | Passed(task: nat)                      // the check found no reason to stop
    | InStore(task: nat)
    | Finishing(task: nat, outcome: Settlement)
    | Exited

  /** `passed` is the clock: the tasks whose deadline has passed. It only grows. */
  datatype System = System(shared: Shared, threads: seq<Thread>, passed: set<nat>)

  datatype Action =
    | SubmitTask(hasDeadline: bool)
    | RequestStop(task: nat, reason: StopReason)
    | RemoveCancelled(task: nat, expired: bool)
    | StopAll(expired: bool)
    | TakeTask(worker: nat)
    | CheckContext(worker: nat, expired: bool)
    | EnterStore(worker: nat)
    | StoreReturns(worker: nat, outcome: Settlement)
    | FinishTask(worker: nat)
    | DeadlinePasses(task: nat)

  function Start(c: ExecutorConfig): System {
    System(Initial(c.workers), seq(c.workers, _ => Idle), {})
  }

  function Held(t: Thread): Option<nat> {
    match t
    case Taken(task) => Some(task)
    case Passed(task) => Some(task)
    case InStore(task) => Some(task)
    case Finishing(task, _) => Some(task)
    case _ => None
  }

  predicate IsWorkerStep(a: Action) {
    a.TakeTask? || a.CheckContext? || a.EnterStore? || a.StoreReturns? || a.FinishTask?
  }

  /** What a check of the context of task `t` finds now. */
  predicate StopsNow(s: System, t: nat)
    requires Known(s.shared, t)
  {
    FoundNow(s, t).Some?
  }

  function FoundNow(s: System, t: nat): Option<StopReason>
    requires Known(s.shared, t)
  {
    StopFor(s.shared.reasons[t], s.shared.deadlines[t], t in s.passed)
  }

  /** Whether the action can happen. `expired` is what the clock says; a stop sets the reasons of the tasks it
      settles, so there it makes no difference. Only a cancellation that set a reason goes on to remove a task.
      The store gives up only for what a check of the task's context finds, and checks it last before it returns
      a result. */
  ghost predicate Enabled(s: System, a: Action) {
    match a
    case SubmitTask(_) => true
    case RequestStop(t, reason) => Known(s.shared, t) && reason != NoReason
    case RemoveCancelled(t, expired) =>
      Known(s.shared, t) && s.shared.reasons[t] != NoReason && expired == (t in s.passed)
    case StopAll(_) => CanStop(s.shared)
    case TakeTask(w) => w < |s.threads| == |s.shared.active| && s.threads[w].Idle? && NextDispatch(s.shared) != Wait
    case CheckContext(w, expired) =>
      && w < |s.threads| && s.threads[w].Taken? && Known(s.shared, s.threads[w].task)
      && expired == (s.threads[w].task in s.passed)
    case EnterStore(w) => w < |s.threads| && s.threads[w].Passed?
    case StoreReturns(w, outcome) =>
      && w < |s.threads| && s.threads[w].InStore? && Known(s.shared, s.threads[w].task)
      && (outcome == Success ==> !StopsNow(s, s.threads[w].task))
      && (outcome.Interrupted? ==> FoundNow(s, s.threads[w].task) == Some(outcome.reason))
    case FinishTask(w) =>
      && w < |s.threads| == |s.shared.active| && s.threads[w].Finishing?
      && Known(s.shared, s.threads[w].task) && s.shared.stats.running > 0
    case DeadlinePasses(t) => Known(s.shared, t) && s.shared.deadlines[t]
  }

  ghost function Step(c: ExecutorConfig, s: System, a: Action): System
    requires Enabled(s, a)
  {
    match a
    case SubmitTask(hasDeadline) => s.(shared := Submit(c, s.shared, hasDeadline))
    case RequestStop(t, reason) => s.(shared := Request(s.shared, t, reason))
    case RemoveCancelled(t, expired) => s.(shared := RemoveWaiting(s.shared, t, expired))
    case StopAll(expired) => s.(shared := Stop(s.shared, expired))
    case TakeTask(w) =>
      if NextDispatch(s.shared).Take?
      then s.(shared := Dequeue(s.shared, w), threads := s.threads[w := Taken(s.shared.queue[0])])
      else s.(threads := s.threads[w := Exited])
    case CheckContext(w, expired) =>
      var t := s.threads[w].task;
      (match StopFor(s.shared.reasons[t], s.shared.deadlines[t], expired)
       case Some(reason) => s.(threads := s.threads[w := Finishing(t, Interrupted(reason))])
       case None => s.(threads := s.threads[w := Passed(t)]))
    case EnterStore(w) =>
      s.(shared := CountStart(s.shared, s.threads[w].task), threads := s.threads[w := InStore(s.threads[w].task)])
    case StoreReturns(w, outcome) => s.(threads := s.threads[w := Finishing(s.threads[w].task, outcome)])
    case FinishTask(w) =>
      s.(shared := Complete(s.shared, w, s.threads[w].task, s.threads[w].outcome), threads := s.threads[w := Idle])
    case DeadlinePasses(t) => s.(passed := s.passed + {t})
  }

  // ---------- Invariant ----------

  function IsBusy(t: Thread): nat {
    if Held(t).Some? then 1 else 0
  }

  function Busy(threads: seq<Thread>): (n: nat)
    ensures n <= |threads|
  {
    if threads == [] then 0 else IsBusy(threads[0]) + Busy(threads[1..])
  }

  lemma {:induction false} BusyUpdate(threads: seq<Thread>, w: nat, t: Thread)
    requires w < |threads|
    ensures Busy(threads[w := t]) == Busy(threads) - IsBusy(threads[w]) + IsBusy(t)
  {
    if w == 0 {
      assert threads[w := t][1..] == threads[1..];
    } else {
      BusyUpdate(threads[1..], w - 1, t);
      assert threads[w := t][1..] == threads[1..][w - 1 := t];
    }
  }

  predicate CountersOk(c: ExecutorConfig, s: Shared, busy: nat) {
    var st := s.stats;
    && st.queued == |s.queue| <= c.queueCapacity
    && st.running == busy
    && st.admitted == |s.reasons| == |s.deadlines| == |s.promises|
    && st.admitted == st.queued + st.running + st.completed
    && st.completed == st.succeeded + st.failed + st.cancelled + st.expired
    && st.queued <= st.peakQueued <= c.queueCapacity
    && st.running <= st.peakRunning <= c.workers
  }

  /** A waiting task is known, unsettled and has not been run. */
  ghost predicate WaitingOk(s: Shared, t: nat) {
    Known(s, t) && s.promises[t] == None && t !in s.reached && t !in s.removed
  }

  ghost predicate Increasing(tasks: seq<nat>) {
    forall i, j :: 0 <= i < j < |tasks| ==> tasks[i] < tasks[j]
  }

  /** Waiting tasks are in admission order and come after all that were dispatched. */
  ghost predicate QueueOk(s: Shared) {
    && (forall i :: 0 <= i < |s.queue| ==> WaitingOk(s, s.queue[i]))
    && Increasing(s.queue)
    && Increasing(s.dispatched)
    && (forall i, j :: 0 <= i < |s.dispatched| && 0 <= j < |s.queue| ==> s.dispatched[i] < s.queue[j])
    && (forall i :: 0 <= i < |s.dispatched| ==> s.dispatched[i] < |s.promises|)
    && (forall t :: t in s.reached || t in s.removed ==> t < |s.promises|)
  }

  /** A worker's task is unsettled and not waiting; it has reached the store once the worker got there. */
  ghost predicate HeldOk(s: Shared, thread: Thread, t: nat) {
    && Known(s, t) && s.promises[t] == None && t !in s.queue && t !in s.removed
    && (s.stopping ==> s.reasons[t] != NoReason)
    && (thread.Taken? || thread.Passed? ==> t !in s.reached)
    && (thread.InStore? || (thread.Finishing? && thread.outcome == Success) ==> t in s.reached)
    && (thread.Finishing? ==> thread.outcome != Interrupted(NoReason))
  }

  ghost predicate ThreadOk(s: Shared, thread: Thread, active: Option<nat>) {
    && active == Held(thread)
    && (thread.Exited? ==> s.stopping)
    && (Held(thread).Some? ==> HeldOk(s, thread, Held(thread).value))
  }

  /** No task is held twice. */
  ghost predicate HeldOnce(threads: seq<Thread>) {
    forall v, w :: 0 <= v < w < |threads| && Held(threads[v]).Some? ==> Held(threads[v]) != Held(threads[w])
  }

  ghost predicate IsHeld(threads: seq<Thread>, t: nat) {
    exists w :: 0 <= w < |threads| && Held(threads[w]) == Some(t)
  }

  /** Every admitted task is waiting, held by a worker, or settled. A success went through the store;
      a task removed while waiting did not, and was interrupted for a reason. */
  ghost predicate TaskOk(s: Shared, threads: seq<Thread>, t: nat) {
    && t < |s.promises|
    && (t in s.queue || IsHeld(threads, t) || s.promises[t].Some?)
    && (s.promises[t] == Some(Success) ==> t in s.reached)
    && (s.promises[t] != Some(Interrupted(NoReason)))
    && (t in s.removed ==> t !in s.reached && s.promises[t].Some? && s.promises[t].value.Interrupted?)
  }

  /** The invariant, except that the queue may still have to be drained after a stop. */
  ghost predicate Core(c: ExecutorConfig, s: System) {
    && |s.threads| == |s.shared.active| == c.workers
    && CountersOk(c, s.shared, Busy(s.threads))
    && QueueOk(s.shared)
    && (forall w :: 0 <= w < |s.threads| ==> ThreadOk(s.shared, s.threads[w], s.shared.active[w]))
    && HeldOnce(s.threads)
    && (forall t :: 0 <= t < |s.shared.promises| ==> TaskOk(s.shared, s.threads, t))
  }

  ghost predicate Inv(c: ExecutorConfig, s: System) {
    Core(c, s) && (s.shared.stopping ==> s.shared.queue == [])
  }

  lemma StartIsSafe(c: ExecutorConfig)
    ensures Inv(c, Start(c))
  {
    IdleIsNotBusy(c.workers);
  }

  lemma {:induction false} IdleIsNotBusy(n: nat)
    ensures Busy(seq(n, _ => Idle)) == 0
  {
    if n > 0 {
      IdleIsNotBusy(n - 1);
      assert seq(n, _ => Idle)[1..] == seq(n - 1, _ => Idle);
    }
  }

  // ---------- Callers ----------

  lemma SubmitKeepsQueue(c: ExecutorConfig, s: Shared, hasDeadline: bool)
    requires QueueOk(s) && s.stats.admitted == |s.reasons| == |s.deadlines| == |s.promises|
    ensures QueueOk(Submit(c, s, hasDeadline)) && |s.promises| !in s.reached && |s.promises| !in s.removed
  {
    var t := Submit(c, s, hasDeadline);
    forall i | 0 <= i < |s.queue| ensures WaitingOk(t, s.queue[i]) {
      assert WaitingOk(s, s.queue[i]);
    }
  }

  lemma SubmitIsSafe(c: ExecutorConfig, s: System, hasDeadline: bool)
    requires Inv(c, s)
    ensures Inv(c, Step(c, s, SubmitTask(hasDeadline)))
  {
    hide QueueOk, Busy, HeldOnce, IsHeld, Held;
    var t := Step(c, s, SubmitTask(hasDeadline));
    SubmitKeepsQueue(c, s.shared, hasDeadline);
    forall w | 0 <= w < |t.threads| ensures ThreadOk(t.shared, t.threads[w], t.shared.active[w]) {
      assert ThreadOk(s.shared, s.threads[w], s.shared.active[w]);
    }
    forall k | 0 <= k < |t.shared.promises| ensures TaskOk(t.shared, t.threads, k) {
      if k < |s.shared.promises| {
        assert TaskOk(s.shared, s.threads, k);
        assert k in s.shared.queue ==> k in t.shared.queue;
      } else {
        assert t.shared.queue[|s.shared.queue|] == k;
      }
    }
  }

  lemma RequestIsSafe(c: ExecutorConfig, s: System, t: nat, reason: StopReason)
    requires Core(c, s) && Known(s.shared, t) && reason != NoReason
    ensures Core(c, s.(shared := Request(s.shared, t, reason)))
  {
    var r := s.(shared := Request(s.shared, t, reason));
    forall w | 0 <= w < |r.threads| ensures ThreadOk(r.shared, r.threads[w], r.shared.active[w]) {
      assert ThreadOk(s.shared, s.threads[w], s.shared.active[w]);
    }
    forall k | 0 <= k < |r.shared.promises| ensures TaskOk(r.shared, r.threads, k) {
      assert TaskOk(s.shared, s.threads, k);
    }
    forall i | 0 <= i < |r.shared.queue| ensures WaitingOk(r.shared, r.shared.queue[i]) {
      assert WaitingOk(s.shared, s.shared.queue[i]);
    }
  }

  lemma SettleWaitingQueue(s: Shared, i: nat, expired: bool)
    requires QueueOk(s) && i < |s.queue| && Known(s, s.queue[i])
    ensures QueueOk(SettleWaiting(s, i, expired))
    ensures forall x :: x in SettleWaiting(s, i, expired).queue <==> x in s.queue && x != s.queue[i]
  {
  }

  lemma SettleWaitingIsSafe(c: ExecutorConfig, s: System, i: nat, expired: bool)
    requires Core(c, s) && i < |s.shared.queue| && Known(s.shared, s.shared.queue[i])
    requires s.shared.reasons[s.shared.queue[i]] != NoReason
    ensures Core(c, s.(shared := SettleWaiting(s.shared, i, expired)))
    ensures SettleWaiting(s.shared, i, expired).promises[s.shared.queue[i]]
         == Some(Interrupted(s.shared.reasons[s.shared.queue[i]]))
  {
    var t := s.shared.queue[i];
    var r := s.(shared := SettleWaiting(s.shared, i, expired));
    assert WaitingOk(s.shared, t);
    SettleWaitingQueue(s.shared, i, expired);
    hide QueueOk;
    forall w | 0 <= w < |r.threads| ensures ThreadOk(r.shared, r.threads[w], r.shared.active[w]) {
      assert ThreadOk(s.shared, s.threads[w], s.shared.active[w]);
      assert t in s.shared.queue;
    }
    forall k | 0 <= k < |r.shared.promises| ensures TaskOk(r.shared, r.threads, k) {
      assert TaskOk(s.shared, s.threads, k);
    }
  }

  lemma RemoveIsSafe(c: ExecutorConfig, s: System, t: nat, expired: bool)
    requires Inv(c, s) && Enabled(s, RemoveCancelled(t, expired))
    ensures Inv(c, Step(c, s, RemoveCancelled(t, expired)))
  {
    var i := IndexOf(s.shared.queue, t);
    if i < |s.shared.queue| {
      SettleWaitingIsSafe(c, s, i, expired);
    }
  }

  // ---------- Stop ----------

  /** Signalling the running tasks gives each of them a reason. */
  lemma {:induction false} StopActiveSignals(s: Shared, w: nat)
    requires w <= |s.active| && ActiveKnown(s)
    ensures var r := StopActive(s, w);
            && (forall t :: 0 <= t < |s.reasons| && s.reasons[t] != NoReason ==> r.reasons[t] != NoReason)
            && (forall v :: w <= v < |s.active| && s.active[v].Some? ==> r.reasons[s.active[v].value] != NoReason)
    decreases |s.active| - w
  {
    if w < |s.active| {
      if s.active[w].Some? {
        var next := Request(s, s.active[w].value, Shutdown);
        forall v | 0 <= v < |next.active| && next.active[v].Some? ensures Known(next, next.active[v].value) {
          assert Known(s, s.active[v].value);
        }
        StopActiveSignals(next, w + 1);
      } else {
        StopActiveSignals(s, w + 1);
      }
    }
  }

  lemma CoreCanStop(c: ExecutorConfig, s: System)
    requires Core(c, s)
    ensures CanStop(s.shared)
  {
  }

  lemma SignalIsSafe(c: ExecutorConfig, s: System)
    requires Core(c, s)
    ensures CanStop(s.shared.(stopping := true))
    ensures Core(c, s.(shared := StopActive(s.shared.(stopping := true), 0)))
  {
    CoreCanStop(c, s);
    var start := s.shared.(stopping := true);
    forall w | 0 <= w < |start.active| && start.active[w].Some? ensures Known(start, start.active[w].value) {
      assert Known(s.shared, s.shared.active[w].value);
    }
    forall i | 0 <= i < |start.queue| ensures Known(start, start.queue[i]) {
      assert Known(s.shared, s.shared.queue[i]);
    }
    StopActiveSignals(start, 0);
    var r := s.(shared := StopActive(start, 0));
    forall w | 0 <= w < |r.threads| ensures ThreadOk(r.shared, r.threads[w], r.shared.active[w]) {
      assert ThreadOk(s.shared, s.threads[w], s.shared.active[w]);
    }
    forall k | 0 <= k < |r.shared.promises| ensures TaskOk(r.shared, r.threads, k) {
      assert TaskOk(s.shared, s.threads, k);
    }
    forall i | 0 <= i < |r.shared.queue| ensures WaitingOk(r.shared, r.shared.queue[i]) {
      assert WaitingOk(s.shared, s.shared.queue[i]);
    }
  }

  lemma DrainOneIsSafe(c: ExecutorConfig, s: System, expired: bool)
    requires Core(c, s) && s.shared.queue != [] && Known(s.shared, s.shared.queue[0])
    ensures Core(c, s.(shared := DrainOne(s.shared, expired)))
  {
    var t := s.shared.queue[0];
    RequestIsSafe(c, s, t, Shutdown);
    var requested := s.(shared := Request(s.shared, t, Shutdown));
    SettleWaitingIsSafe(c, requested, 0, expired);
    assert s.shared.queue[..0] + s.shared.queue[1..] == s.shared.queue[1..];
    assert DrainOne(s.shared, expired) == SettleWaiting(requested.shared, 0, expired);
  }

  lemma {:induction false} DrainIsSafe(c: ExecutorConfig, s: System, expired: bool)
    requires Core(c, s) && AllKnown(s.shared, s.shared.queue)
    ensures Core(c, s.(shared := Drain(s.shared, expired)))
    decreases |s.shared.queue|
  {
    if s.shared.queue != [] {
      DrainOneIsSafe(c, s, expired);
      var next := s.(shared := DrainOne(s.shared, expired));
      CoreCanStop(c, next);
      DrainIsSafe(c, next, expired);
    }
  }

  lemma StopIsSafe(c: ExecutorConfig, s: System, expired: bool)
    requires Inv(c, s) && CanStop(s.shared)
    ensures Inv(c, s.(shared := Stop(s.shared, expired)))
  {
    if !s.shared.stopping {
      SignalIsSafe(c, s);
      var signalled := s.(shared := StopActive(s.shared.(stopping := true), 0));
      CoreCanStop(c, signalled);
      DrainIsSafe(c, signalled, expired);
    }
  }

  // ---------- Workers ----------

  lemma DequeueQueue(s: Shared, w: nat)
    requires QueueOk(s) && s.queue != [] && w < |s.active|
    ensures QueueOk(Dequeue(s, w)) && WaitingOk(s, s.queue[0])
    ensures forall x :: x in Dequeue(s, w).queue <==> x in s.queue && x != s.queue[0]
  {
  }

  lemma TakeIsSafe(c: ExecutorConfig, s: System, w: nat)
    requires Inv(c, s) && Enabled(s, TakeTask(w))
    ensures Inv(c, Step(c, s, TakeTask(w)))
  {
    var r := Step(c, s, TakeTask(w));
    BusyUpdate(s.threads, w, r.threads[w]);
    assert ThreadOk(s.shared, s.threads[w], s.shared.active[w]);
    if NextDispatch(s.shared).Take? {
      DequeueQueue(s.shared, w);
      assert s.shared.queue[0] in s.shared.queue;
    }
    hide QueueOk;
    forall v | 0 <= v < |r.threads| ensures ThreadOk(r.shared, r.threads[v], r.shared.active[v]) {
      assert ThreadOk(s.shared, s.threads[v], s.shared.active[v]);
    }
    forall k | 0 <= k < |r.shared.promises| ensures TaskOk(r.shared, r.threads, k) {
      assert TaskOk(s.shared, s.threads, k);
      HeldElsewhere(s.threads, w, r.threads[w], k);
    }
  }

  /** Replacing one thread keeps what the others hold. */
  lemma HeldElsewhere(threads: seq<Thread>, w: nat, t: Thread, k: nat)
    requires w < |threads|
    ensures IsHeld(threads, k) ==> IsHeld(threads[w := t], k) || Held(threads[w]) == Some(k)
    ensures Held(t) == Some(k) ==> IsHeld(threads[w := t], k)
  {
    if IsHeld(threads, k) {
      var v :| 0 <= v < |threads| && Held(threads[v]) == Some(k);
      assert v != w ==> Held(threads[w := t][v]) == Some(k);
    }
    assert Held(threads[w := t][w]) == Held(t);
  }

  /** Steps of a worker that touch nothing shared and keep hold of its task. */
  lemma MoveIsSafe(c: ExecutorConfig, s: System, a: Action)
    requires Inv(c, s) && Enabled(s, a) && (a.CheckContext? || a.StoreReturns?)
    ensures Inv(c, Step(c, s, a))
  {
    var r, w := Step(c, s, a), a.worker;
    BusyUpdate(s.threads, w, r.threads[w]);
    assert ThreadOk(s.shared, s.threads[w], s.shared.active[w]);
    hide QueueOk, Busy;
    forall v | 0 <= v < |r.threads| ensures ThreadOk(r.shared, r.threads[v], r.shared.active[v]) {
      assert ThreadOk(s.shared, s.threads[v], s.shared.active[v]);
    }
    hide ThreadOk;
    forall k | 0 <= k < |r.shared.promises| ensures TaskOk(r.shared, r.threads, k) {
      assert TaskOk(s.shared, s.threads, k);
      HeldElsewhere(s.threads, w, r.threads[w], k);
    }
  }

  lemma EnterIsSafe(c: ExecutorConfig, s: System, w: nat)
    requires Inv(c, s) && Enabled(s, EnterStore(w))
    ensures Inv(c, Step(c, s, EnterStore(w)))
  {
    var r := Step(c, s, EnterStore(w));
    BusyUpdate(s.threads, w, r.threads[w]);
    assert ThreadOk(s.shared, s.threads[w], s.shared.active[w]);
    EnterKeepsQueue(s.shared, s.threads[w].task);
    hide QueueOk, Busy;
    forall v | 0 <= v < |r.threads| ensures ThreadOk(r.shared, r.threads[v], r.shared.active[v]) {
      assert ThreadOk(s.shared, s.threads[v], s.shared.active[v]);
    }
    hide ThreadOk;
    forall k | 0 <= k < |r.shared.promises| ensures TaskOk(r.shared, r.threads, k) {
      assert TaskOk(s.shared, s.threads, k);
      HeldElsewhere(s.threads, w, r.threads[w], k);
    }
  }

  lemma EnterKeepsQueue(s: Shared, t: nat)
    requires QueueOk(s) && t < |s.promises| && t !in s.queue
    ensures QueueOk(CountStart(s, t))
  {
    forall i | 0 <= i < |s.queue| ensures WaitingOk(CountStart(s, t), s.queue[i]) {
      assert WaitingOk(s, s.queue[i]);
    }
  }

  lemma FinishIsSafe(c: ExecutorConfig, s: System, w: nat)
    requires Inv(c, s) && Enabled(s, FinishTask(w))
    ensures Inv(c, Step(c, s, FinishTask(w)))
  {
    var r := Step(c, s, FinishTask(w));
    BusyUpdate(s.threads, w, Idle);
    assert ThreadOk(s.shared, s.threads[w], s.shared.active[w]);
    FinishKeepsQueue(s.shared, w, s.threads[w].task, s.threads[w].outcome);
    hide QueueOk, Busy;
    forall v | 0 <= v < |r.threads| ensures ThreadOk(r.shared, r.threads[v], r.shared.active[v]) {
      assert ThreadOk(s.shared, s.threads[v], s.shared.active[v]);
    }
    hide ThreadOk;
    forall k | 0 <= k < |r.shared.promises| ensures TaskOk(r.shared, r.threads, k) {
      assert TaskOk(s.shared, s.threads, k);
      HeldElsewhere(s.threads, w, Idle, k);
    }
  }

  lemma FinishKeepsQueue(s: Shared, w: nat, t: nat, outcome: Settlement)
    requires QueueOk(s) && w < |s.active| && Known(s, t) && s.stats.running > 0 && t !in s.queue
    ensures QueueOk(Complete(s, w, t, outcome))
  {
    var r := Complete(s, w, t, outcome);
    forall i | 0 <= i < |r.queue| ensures WaitingOk(r, r.queue[i]) {
      assert WaitingOk(s, s.queue[i]);
    }
  }

  lemma StepIsSafe(c: ExecutorConfig, s: System, a: Action)
    requires Inv(c, s) && Enabled(s, a)
    ensures Inv(c, Step(c, s, a))
  {
    match a
    case SubmitTask(hasDeadline) => SubmitIsSafe(c, s, hasDeadline);
    case RequestStop(t, reason) => RequestIsSafe(c, s, t, reason);
    case RemoveCancelled(t, expired) => RemoveIsSafe(c, s, t, expired);
    case StopAll(expired) => StopIsSafe(c, s, expired);
    case TakeTask(w) => TakeIsSafe(c, s, w);
    case EnterStore(w) => EnterIsSafe(c, s, w);
    case FinishTask(w) => FinishIsSafe(c, s, w);
    case DeadlinePasses(_) =>
    case _ => MoveIsSafe(c, s, a);
  }

  // ---------- Runs ----------

  ghost function Run(c: ExecutorConfig, s: System, actions: seq<Action>): System
    decreases |actions|
  {
    if actions == [] then s
    else Run(c, if Enabled(s, actions[0]) then Step(c, s, actions[0]) else s, actions[1..])
  }

  /** The invariant holds in every state of every interleaving. */
  lemma {:induction false} RunIsSafe(c: ExecutorConfig, s: System, actions: seq<Action>)
    requires Inv(c, s)
    ensures Inv(c, Run(c, s, actions))
    decreases |actions|
  {
    if actions != [] {
      if Enabled(s, actions[0]) {
        StepIsSafe(c, s, actions[0]);
        RunIsSafe(c, Step(c, s, actions[0]), actions[1..]);
      } else {
        RunIsSafe(c, s, actions[1..]);
      }
    }
  }

  ghost predicate Reachable(c: ExecutorConfig, s: System) {
    exists actions :: Run(c, Start(c), actions) == s
  }

  lemma ReachableIsSafe(c: ExecutorConfig, s: System)
    requires Reachable(c, s)
    ensures Inv(c, s)
  {
    var actions :| Run(c, Start(c), actions) == s;
    StartIsSafe(c);
    RunIsSafe(c, Start(c), actions);
  }

  /** The published counters always balance and respect the configured limits. */
  lemma CountersBalance(c: ExecutorConfig, s: System)
    requires Reachable(c, s)
    ensures var st := s.shared.stats;
            && st.admitted == st.queued + st.running + st.completed
            && st.completed == st.succeeded + st.failed + st.cancelled + st.expired
            && st.queued == |s.shared.queue| <= st.peakQueued <= c.queueCapacity
            && st.running == Busy(s.threads) <= st.peakRunning <= c.workers
  {
    ReachableIsSafe(c, s);
  }

  /** A task taken out of the queue unrun never reaches the store and is never settled as a success;
      every success went through the store. */
  lemma RemovedNeverRuns(c: ExecutorConfig, s: System, t: nat)
    requires Reachable(c, s) && t < |s.shared.promises|
    ensures t in s.shared.removed ==> t !in s.shared.reached && s.shared.promises[t] != Some(Success)
    ensures s.shared.promises[t] == Some(Success) ==> t in s.shared.reached
  {
    ReachableIsSafe(c, s);
    assert TaskOk(s.shared, s.threads, t);
  }

  /** Tasks are dispatched in the order in which they were admitted. */
  lemma DispatchIsFifo(c: ExecutorConfig, s: System)
    requires Reachable(c, s)
    ensures Increasing(s.shared.dispatched)
    ensures forall i, j :: 0 <= i < |s.shared.dispatched| && 0 <= j < |s.shared.queue|
              ==> s.shared.dispatched[i] < s.shared.queue[j]
  {
    ReachableIsSafe(c, s);
  }

  // ---------- Promises ----------

  /** Promises that were fulfilled keep their value. */
  ghost predicate Keeps(s: Shared, r: Shared) {
    && |s.promises| <= |r.promises|
    && forall t :: 0 <= t < |s.promises| && s.promises[t].Some? ==> r.promises[t] == s.promises[t]
  }

  lemma {:induction false} DrainKeeps(c: ExecutorConfig, s: System, expired: bool)
    requires Core(c, s) && AllKnown(s.shared, s.shared.queue)
    ensures Keeps(s.shared, Drain(s.shared, expired))
    decreases |s.shared.queue|
  {
    if s.shared.queue != [] {
      DrainOneIsSafe(c, s, expired);
      assert WaitingOk(s.shared, s.shared.queue[0]);
      var next := s.(shared := DrainOne(s.shared, expired));
      CoreCanStop(c, next);
      DrainKeeps(c, next, expired);
    }
  }

  /** A promise is fulfilled at most once: no step overwrites one that has a value. */
  lemma StepSettlesOnce(c: ExecutorConfig, s: System, a: Action)
    requires Inv(c, s) && Enabled(s, a)
    ensures Keeps(s.shared, Step(c, s, a).shared)
  {
    match a
    case RemoveCancelled(t, _) =>
      var i := IndexOf(s.shared.queue, t);
      if i < |s.shared.queue| { assert WaitingOk(s.shared, s.shared.queue[i]); }
    case StopAll(expired) =>
      if !s.shared.stopping {
        SignalIsSafe(c, s);
        var signalled := s.(shared := StopActive(s.shared.(stopping := true), 0));
        CoreCanStop(c, signalled);
        DrainKeeps(c, signalled, expired);
      }
    case FinishTask(w) => assert ThreadOk(s.shared, s.threads[w], s.shared.active[w]);
    case _ =>
  }

  lemma {:induction false} RunSettlesOnce(c: ExecutorConfig, s: System, actions: seq<Action>)
    requires Inv(c, s)
    ensures Keeps(s.shared, Run(c, s, actions).shared)
    decreases |actions|
  {
    if actions != [] {
      if Enabled(s, actions[0]) {
        StepIsSafe(c, s, actions[0]);
        StepSettlesOnce(c, s, actions[0]);
        RunSettlesOnce(c, Step(c, s, actions[0]), actions[1..]);
      } else {
        RunSettlesOnce(c, s, actions[1..]);
      }
    }
  }

  // ---------- Signalled tasks ----------

  /** A task that was signalled, or whose deadline passed, before the store made its last check. */
  ghost predicate Doomed(s: System, t: nat) {
    && Known(s.shared, t) && StopsNow(s, t)
    && s.shared.promises[t] != Some(Success)
    && forall w :: 0 <= w < |s.threads| ==> s.threads[w] != Finishing(t, Success)
  }

  lemma StopActiveKeepsReasons(s: Shared, t: nat)
    requires ActiveKnown(s) && t < |s.reasons| && s.reasons[t] != NoReason
    ensures StopActive(s, 0).reasons[t] != NoReason
  {
    StopActiveSignals(s, 0);
  }

  lemma {:induction false} DrainKeepsDoomed(s: System, t: nat, expired: bool)
    requires AllKnown(s.shared, s.shared.queue) && Doomed(s, t)
    ensures Doomed(s.(shared := Drain(s.shared, expired)), t)
    decreases |s.shared.queue|
  {
    if s.shared.queue != [] {
      var next := DrainOne(s.shared, expired);
      forall i | 0 <= i < |next.queue| ensures Known(next, next.queue[i]) {
        assert Known(s.shared, s.shared.queue[i + 1]);
      }
      DrainKeepsDoomed(s.(shared := next), t, expired);
    }
  }

  lemma StopKeepsDoomed(s: System, t: nat, expired: bool)
    requires CanStop(s.shared) && Doomed(s, t)
    ensures Doomed(s.(shared := Stop(s.shared, expired)), t)
  {
    hide Drain;
    if !s.shared.stopping {
      var start := s.shared.(stopping := true);
      assert ActiveKnown(start);
      if s.shared.reasons[t] != NoReason {
        StopActiveKeepsReasons(start, t);
      }
      var signalled := StopActive(start, 0);
      hide StopActive;
      forall i | 0 <= i < |signalled.queue| ensures Known(signalled, signalled.queue[i]) {
        assert Known(s.shared, s.shared.queue[i]);
      }
      DrainKeepsDoomed(s.(shared := signalled), t, expired);
    }
  }

  lemma StepKeepsDoomed(c: ExecutorConfig, s: System, a: Action, t: nat)
    requires Enabled(s, a) && Doomed(s, t)
    ensures Doomed(Step(c, s, a), t)
  {
    hide Stop, CanStop, Counted;
    match a
    case StopAll(expired) => StopKeepsDoomed(s, t, expired);
    case _ =>
  }

  /** A task that is signalled before the store's last check, or whose deadline passes before it, never succeeds,
      whatever else happens. */
  lemma {:induction false} SignalledNeverSucceeds(c: ExecutorConfig, s: System, actions: seq<Action>, t: nat)
    requires Doomed(s, t)
    ensures Doomed(Run(c, s, actions), t)
    decreases |actions|
  {
    if actions != [] {
      if Enabled(s, actions[0]) {
        StepKeepsDoomed(c, s, actions[0], t);
        SignalledNeverSucceeds(c, Step(c, s, actions[0]), actions[1..], t);
      } else {
        SignalledNeverSucceeds(c, s, actions[1..], t);
      }
    }
  }

  lemma {:induction false} DrainKeepsReasons(s: Shared, t: nat, expired: bool)
    requires AllKnown(s, s.queue) && Known(s, t) && s.reasons[t] != NoReason
    ensures var r := Drain(s, expired); Known(r, t) && r.reasons[t] != NoReason
    decreases |s.queue|
  {
    if s.queue != [] {
      var next := DrainOne(s, expired);
      forall i | 0 <= i < |next.queue| ensures Known(next, next.queue[i]) {
        assert Known(s, s.queue[i + 1]);
      }
      DrainKeepsReasons(next, t, expired);
    }
  }

  lemma StopKeepsReasons(s: Shared, t: nat, expired: bool)
    requires CanStop(s) && Known(s, t) && s.reasons[t] != NoReason
    ensures var r := Stop(s, expired); Known(r, t) && r.reasons[t] != NoReason
  {
    hide Drain;
    if !s.stopping {
      var start := s.(stopping := true);
      assert ActiveKnown(start);
      StopActiveKeepsReasons(start, t);
      var signalled := StopActive(start, 0);
      hide StopActive;
      forall i | 0 <= i < |signalled.queue| ensures Known(signalled, signalled.queue[i]) {
        assert Known(s, s.queue[i]);
      }
      DrainKeepsReasons(signalled, t, expired);
    }
  }

  lemma StepKeepsReasons(c: ExecutorConfig, s: System, a: Action, t: nat)
    requires Enabled(s, a) && Known(s.shared, t) && s.shared.reasons[t] != NoReason
    ensures var r := Step(c, s, a).shared; Known(r, t) && r.reasons[t] != NoReason
  {
    hide Stop, CanStop, Counted;
    match a
    case StopAll(expired) => StopKeepsReasons(s.shared, t, expired);
    case _ =>
  }

  lemma {:induction false} RunKeepsReasons(c: ExecutorConfig, s: System, actions: seq<Action>, t: nat)
    requires Known(s.shared, t) && s.shared.reasons[t] != NoReason
    ensures var r := Run(c, s, actions).shared; Known(r, t) && r.reasons[t] != NoReason
    decreases |actions|
  {
    if actions != [] {
      if Enabled(s, actions[0]) {
        StepKeepsReasons(c, s, actions[0], t);
        RunKeepsReasons(c, Step(c, s, actions[0]), actions[1..], t);
      } else {
        RunKeepsReasons(c, s, actions[1..], t);
      }
    }
  }

  /** In particular a task signalled while it waits, before its store call or during it. */
  lemma CancelledInTime(c: ExecutorConfig, s: System, t: nat, reason: StopReason, actions: seq<Action>)
    requires Reachable(c, s) && reason != NoReason && t < |s.shared.promises| && s.shared.promises[t] == None
    requires forall w :: 0 <= w < |s.threads| && Held(s.threads[w]) == Some(t) ==> !s.threads[w].Finishing?
    ensures Enabled(s, RequestStop(t, reason))
    ensures var r := Run(c, Step(c, s, RequestStop(t, reason)), actions).shared;
            Known(r, t) && r.reasons[t] != NoReason && r.promises[t] != Some(Success)
  {
    ReachableIsSafe(c, s);
    assert TaskOk(s.shared, s.threads, t);
    SignalledNeverSucceeds(c, Step(c, s, RequestStop(t, reason)), actions, t);
    RunKeepsReasons(c, Step(c, s, RequestStop(t, reason)), actions, t);
  }

  /** Likewise a task whose deadline passes in time. */
  lemma ExpiredInTime(c: ExecutorConfig, s: System, t: nat, actions: seq<Action>)
    requires Reachable(c, s) && t < |s.shared.promises| && s.shared.promises[t] == None
    requires t < |s.shared.deadlines| && s.shared.deadlines[t]
    requires forall w :: 0 <= w < |s.threads| && Held(s.threads[w]) == Some(t) ==> !s.threads[w].Finishing?
    ensures Enabled(s, DeadlinePasses(t))
    ensures var r := Run(c, Step(c, s, DeadlinePasses(t)), actions).shared;
            Known(r, t) && r.promises[t] != Some(Success)
  {
    ReachableIsSafe(c, s);
    assert TaskOk(s.shared, s.threads, t);
    SignalledNeverSucceeds(c, Step(c, s, DeadlinePasses(t)), actions, t);
  }

  // ---------- After a stop ----------

  /** Once stopped, nothing waits and every unsettled task carries a reason to stop. */
  lemma StoppedTasksHaveReasons(c: ExecutorConfig, s: System, t: nat)
    requires Reachable(c, s) && s.shared.stopping && t < |s.shared.promises|
    ensures s.shared.queue == [] && Known(s.shared, t)
    ensures s.shared.promises[t] == None ==> s.shared.reasons[t] != NoReason
  {
    ReachableIsSafe(c, s);
    assert TaskOk(s.shared, s.threads, t);
    if IsHeld(s.threads, t) {
      var w :| 0 <= w < |s.threads| && Held(s.threads[w]) == Some(t);
      assert ThreadOk(s.shared, s.threads[w], s.shared.active[w]);
    }
  }

  lemma StopTakesEffect(s: Shared, expired: bool)
    requires CanStop(s)
    ensures Stop(s, expired).stopping && Stop(s, expired).stats.admitted == s.stats.admitted
  {
    if !s.stopping {
      var signalled := StopActive(s.(stopping := true), 0);
      forall i | 0 <= i < |signalled.queue| ensures Known(signalled, signalled.queue[i]) {
        assert Known(s, s.queue[i]);
      }
      DrainStops(signalled, expired);
    }
  }

  lemma {:induction false} DrainStops(s: Shared, expired: bool)
    requires AllKnown(s, s.queue)
    ensures Drain(s, expired).stopping == s.stopping && Drain(s, expired).stats.admitted == s.stats.admitted
    decreases |s.queue|
  {
    if s.queue != [] {
      var next := DrainOne(s, expired);
      forall i | 0 <= i < |next.queue| ensures Known(next, next.queue[i]) {
        assert Known(s, s.queue[i + 1]);
      }
      DrainStops(next, expired);
    }
  }

  /** Stopping is permanent: whatever happens afterwards, nothing waits and nothing is admitted. */
  lemma {:induction false} StopIsPermanent(c: ExecutorConfig, s: System, actions: seq<Action>)
    requires Inv(c, s) && s.shared.stopping
    ensures var r := Run(c, s, actions).shared;
            r.stopping && r.queue == [] && r.stats.admitted == s.shared.stats.admitted
    decreases |actions|
  {
    if actions != [] {
      if Enabled(s, actions[0]) {
        StepIsSafe(c, s, actions[0]);
        StopIsPermanent(c, Step(c, s, actions[0]), actions[1..]);
      } else {
        StopIsPermanent(c, s, actions[1..]);
      }
    }
  }

  /** From the stop on: no task waits, none is admitted, and each unsettled one has a reason to stop. */
  lemma AfterStop(c: ExecutorConfig, s: System, expired: bool, actions: seq<Action>, t: nat)
    requires Reachable(c, s)
    ensures Enabled(s, StopAll(expired))
    ensures var r := Run(c, Step(c, s, StopAll(expired)), actions).shared;
            && r.stopping && r.queue == [] && r.stats.admitted == s.shared.stats.admitted
            && (t < |r.promises| && r.promises[t] == None ==> t < |r.reasons| && r.reasons[t] != NoReason)
  {
    ReachableIsSafe(c, s);
    CoreCanStop(c, s);
    StepIsSafe(c, s, StopAll(expired));
    StopTakesEffect(s.shared, expired);
    var stopped := Step(c, s, StopAll(expired));
    StopIsPermanent(c, stopped, actions);
    hide Core, Stop;
    RunContinues(c, s, StopAll(expired), actions);
    if t < |Run(c, stopped, actions).shared.promises| {
      StoppedTasksHaveReasons(c, Run(c, stopped, actions), t);
    }
  }

  lemma RunContinues(c: ExecutorConfig, s: System, a: Action, actions: seq<Action>)
    requires Reachable(c, s) && Enabled(s, a)
    ensures Reachable(c, Run(c, Step(c, s, a), actions))
  {
    var before :| Run(c, Start(c), before) == s;
    assert ([a] + actions)[1..] == actions;
    assert Run(c, s, [a] + actions) == Run(c, Step(c, s, a), actions);
    RunJoins(c, Start(c), before, [a] + actions);
  }

  lemma {:induction false} RunJoins(c: ExecutorConfig, s: System, a: seq<Action>, b: seq<Action>)
    ensures Run(c, s, a + b) == Run(c, Run(c, s, a), b)
    decreases |a|
  {
    if a == [] {
      assert a + b == b;
    } else {
      RunJoins(c, if Enabled(s, a[0]) then Step(c, s, a[0]) else s, a[1..], b);
      assert (a + b)[0] == a[0] && (a + b)[1..] == a[1..] + b;
    }
  }

  function Rank(t: Thread): nat {
    match t
    case Exited => 0
    case Idle => 1
    case Finishing(_, _) => 2
    case InStore(_) => 3
    case Passed(_) => 4
    case Taken(_) => 5
  }

  /** How much the workers still have to do once nothing new can be dispatched. */
  function Remaining(threads: seq<Thread>): nat {
    if threads == [] then 0 else Rank(threads[0]) + Remaining(threads[1..])
  }

  lemma {:induction false} RemainingUpdate(threads: seq<Thread>, w: nat, t: Thread)
    requires w < |threads|
    ensures Remaining(threads[w := t]) == Remaining(threads) - Rank(threads[w]) + Rank(t)
  {
    if w == 0 {
      assert threads[w := t][1..] == threads[1..];
    } else {
      RemainingUpdate(threads[1..], w - 1, t);
      assert threads[w := t][1..] == threads[1..][w - 1 := t];
    }
  }

  /** After a stop every worker step brings the end closer, and no other step moves it away. */
  lemma StoppedStepsDecrease(c: ExecutorConfig, s: System, a: Action)
    requires Inv(c, s) && Enabled(s, a) && s.shared.stopping
    ensures IsWorkerStep(a) ==> Remaining(Step(c, s, a).threads) < Remaining(s.threads)
    ensures !IsWorkerStep(a) ==> Step(c, s, a).threads == s.threads
  {
    if IsWorkerStep(a) {
      RemainingUpdate(s.threads, a.worker, Step(c, s, a).threads[a.worker]);
    }
  }

  /** The worker steps taken in a run. */
  ghost function WorkerSteps(c: ExecutorConfig, s: System, actions: seq<Action>): nat
    decreases |actions|
  {
    if actions == [] then 0
    else if !Enabled(s, actions[0]) then WorkerSteps(c, s, actions[1..])
    else (if IsWorkerStep(actions[0]) then 1 else 0) + WorkerSteps(c, Step(c, s, actions[0]), actions[1..])
  }

  /** Whatever callers do after a stop, the workers take a bounded number of steps. */
  lemma {:induction false} StoppedRunsAreBounded(c: ExecutorConfig, s: System, actions: seq<Action>)
    requires Inv(c, s) && s.shared.stopping
    ensures WorkerSteps(c, s, actions) <= Remaining(s.threads)
    decreases |actions|
  {
    if actions != [] {
      if Enabled(s, actions[0]) {
        StepIsSafe(c, s, actions[0]);
        StoppedStepsDecrease(c, s, actions[0]);
        StoppedRunsAreBounded(c, Step(c, s, actions[0]), actions[1..]);
      } else {
        StoppedRunsAreBounded(c, s, actions[1..]);
      }
    }
  }

  /** A step that worker `w` can take on its own, or that waits only for the store to return. */
  function NextAction(s: System, w: nat): Action
    requires w < |s.threads|
  {
    match s.threads[w]
    case Taken(task) => CheckContext(w, task in s.passed)
    case Passed(_) => EnterStore(w)
    case InStore(_) => StoreReturns(w, OtherError)
    case Finishing(_, _) => FinishTask(w)
    case _ => TakeTask(w)
  }

  /** After a stop no worker is ever stuck: each one that has not exited has a step to take. */
  lemma StoppedWorkersProceed(c: ExecutorConfig, s: System, w: nat)
    requires Inv(c, s) && s.shared.stopping && w < |s.threads| && !s.threads[w].Exited?
    ensures Enabled(s, NextAction(s, w))
  {
    assert ThreadOk(s.shared, s.threads[w], s.shared.active[w]);
    BusyUpdate(s.threads, w, Idle);
  }

  /** When all workers have exited, every admitted task is settled and the counters say so. */
  lemma AllExitedMeansAllSettled(c: ExecutorConfig, s: System)
    requires Reachable(c, s) && c.workers > 0
    requires forall w :: 0 <= w < |s.threads| ==> s.threads[w].Exited?
    ensures var st := s.shared.stats; st.queued == 0 && st.running == 0 && st.completed == st.admitted
    ensures forall t :: 0 <= t < |s.shared.promises| ==> s.shared.promises[t].Some?
    ensures |s.shared.promises| == s.shared.stats.admitted
  {
    ReachableIsSafe(c, s);
    assert ThreadOk(s.shared, s.threads[0], s.shared.active[0]);
    ExitedIsNotBusy(s.threads);
    forall t | 0 <= t < |s.shared.promises| ensures s.shared.promises[t].Some? {
      assert TaskOk(s.shared, s.threads, t);
    }
  }

  lemma {:induction false} ExitedIsNotBusy(threads: seq<Thread>)
    requires forall w :: 0 <= w < |threads| ==> threads[w].Exited?
    ensures Busy(threads) == 0
  {
    if threads != [] { ExitedIsNotBusy(threads[1..]); }
  }
}
