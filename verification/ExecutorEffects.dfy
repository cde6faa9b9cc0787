/** What each request to the executor does to whom: counters, admission, cancellation, stop and delivery. */
module ExecutorEffects {
  import opened Wrappers
  import opened SearchContextModel
  import opened ExecutorSteps
  import opened ExecutorRuns

  // ---------- Counters count promises ----------

  datatype Kind = KindSuccess | KindError | KindCancelled | KindExpired

  function KindOf(outcome: Settlement): Kind {
    match outcome
    case Success => KindSuccess
    case OtherError => KindError
    case Interrupted(reason) => if reason == DeadlineExceeded then KindExpired else KindCancelled
  }

  function IsOfKind(promise: Option<Settlement>, kind: Kind): nat {
    if promise.Some? && KindOf(promise.value) == kind then 1 else 0
  }

  /** How many promises were settled in one way. */
  function Tally(promises: seq<Option<Settlement>>, kind: Kind): nat {
    if promises == [] then 0 else Tally(promises[..|promises| - 1], kind) + IsOfKind(promises[|promises| - 1], kind)
  }

  function CounterOf(st: Stats, kind: Kind): nat {
    match kind
    case KindSuccess => st.succeeded
    case KindError => st.failed
    case KindCancelled => st.cancelled
    case KindExpired => st.expired
  }

  ghost predicate Tallied(s: Shared) {
    && (forall kind :: CounterOf(s.stats, kind) == Tally(s.promises, kind))
    && s.stats.started == |s.reached|
  }

  lemma {:induction false} TallyUpdate(promises: seq<Option<Settlement>>, t: nat, p: Option<Settlement>, kind: Kind)
    requires t < |promises|
    ensures Tally(promises[t := p], kind) == Tally(promises, kind) - IsOfKind(promises[t], kind) + IsOfKind(p, kind)
  {
    var n := |promises| - 1;
    if t < n {
      TallyUpdate(promises[..n], t, p, kind);
      assert promises[t := p][..n] == promises[..n][t := p];
    } else {
      assert promises[t := p][..n] == promises[..n];
    }
  }

  lemma SettleIsTallied(s: Shared, t: nat, outcome: Settlement)
    requires Known(s, t) && s.promises[t] == None && Tallied(s)
    ensures Tallied(Settle(s, t, outcome))
  {
    var r := Settle(s, t, outcome);
    forall kind ensures CounterOf(r.stats, kind) == Tally(r.promises, kind) {
      TallyUpdate(s.promises, t, Some(outcome), kind);
      assert CounterOf(s.stats, kind) == Tally(s.promises, kind);
    }
  }

  /** Nothing but promises, these counters and the record of store calls matters. */
  lemma SameTally(s: Shared, r: Shared)
    requires Tallied(s) && r.promises == s.promises && r.reached == s.reached && r.stats.started == s.stats.started
    requires forall kind :: CounterOf(r.stats, kind) == CounterOf(s.stats, kind)
    ensures Tallied(r)
  {
  }

  lemma SubmitIsTallied(c: ExecutorConfig, s: Shared, hasDeadline: bool)
    requires Tallied(s)
    ensures Tallied(Submit(c, s, hasDeadline))
  {
    assert (s.promises + [None])[..|s.promises|] == s.promises;
  }

  lemma SettleWaitingIsTallied(s: Shared, i: nat, expired: bool)
    requires i < |s.queue| && WaitingOk(s, s.queue[i]) && Tallied(s)
    ensures Tallied(SettleWaiting(s, i, expired))
  {
    hide Settle, Tallied, WaitingOutcome;
    var taken := s.(queue := s.queue[..i] + s.queue[i + 1..], removed := s.removed + {s.queue[i]},
                    stats := s.stats.(queued := |s.queue| - 1));
    SameTally(s, taken);
    SettleIsTallied(taken, s.queue[i], WaitingOutcome(taken, s.queue[i], expired));
  }

  lemma DrainOneIsTallied(s: Shared, expired: bool)
    requires s.queue != [] && WaitingOk(s, s.queue[0]) && Tallied(s)
    ensures Tallied(DrainOne(s, expired))
  {
    hide Settle, Tallied, WaitingOutcome;
    var t := s.queue[0];
    var taken := Request(s.(queue := s.queue[1..], removed := s.removed + {t},
                            stats := s.stats.(queued := |s.queue| - 1)), t, Shutdown);
    SameTally(s, taken);
    SettleIsTallied(taken, t, WaitingOutcome(taken, t, expired));
  }

  lemma {:induction false} DrainIsTallied(c: ExecutorConfig, s: System, expired: bool)
    requires Core(c, s) && AllKnown(s.shared, s.shared.queue) && Tallied(s.shared)
    ensures Tallied(Drain(s.shared, expired))
    decreases |s.shared.queue|
  {
    hide Tallied, DrainOne;
    if s.shared.queue != [] {
      assert WaitingOk(s.shared, s.shared.queue[0]);
      DrainOneIsSafe(c, s, expired);
      DrainOneIsTallied(s.shared, expired);
      var next := s.(shared := DrainOne(s.shared, expired));
      CoreCanStop(c, next);
      hide Core;
      DrainIsTallied(c, next, expired);
    }
  }

  lemma StopIsTallied(c: ExecutorConfig, s: System, expired: bool)
    requires Inv(c, s) && CanStop(s.shared) && Tallied(s.shared)
    ensures Tallied(Stop(s.shared, expired))
  {
    if !s.shared.stopping {
      SignalIsSafe(c, s);
      var signalled := s.(shared := StopActive(s.shared.(stopping := true), 0));
      SameTally(s.shared, signalled.shared);
      CoreCanStop(c, signalled);
      DrainIsTallied(c, signalled, expired);
    }
  }

  lemma FinishIsTallied(c: ExecutorConfig, s: System, w: nat)
    requires Inv(c, s) && Enabled(s, FinishTask(w)) && Tallied(s.shared)
    ensures Tallied(Step(c, s, FinishTask(w)).shared)
  {
    assert ThreadOk(s.shared, s.threads[w], s.shared.active[w]);
    hide Settle, Tallied, Core;
    var t := s.threads[w].task;
    var freed := s.shared.(active := s.shared.active[w := None],
                           stats := s.shared.stats.(running := s.shared.stats.running - 1));
    SameTally(s.shared, freed);
    SettleIsTallied(freed, t, s.threads[w].outcome);
  }

  lemma EnterIsTallied(c: ExecutorConfig, s: System, w: nat)
    requires Inv(c, s) && Enabled(s, EnterStore(w)) && Tallied(s.shared)
    ensures Tallied(Step(c, s, EnterStore(w)).shared)
  {
    assert ThreadOk(s.shared, s.threads[w], s.shared.active[w]);
    hide Core, Tally;
    var r := Step(c, s, EnterStore(w)).shared;
    forall kind ensures CounterOf(r.stats, kind) == Tally(r.promises, kind) {
      assert CounterOf(s.shared.stats, kind) == Tally(s.shared.promises, kind);
    }
  }

  lemma StepIsTallied(c: ExecutorConfig, s: System, a: Action)
    requires Inv(c, s) && Enabled(s, a) && Tallied(s.shared)
    ensures Tallied(Step(c, s, a).shared)
  {
    match a
    case SubmitTask(hasDeadline) => SubmitIsTallied(c, s.shared, hasDeadline);
    case RemoveCancelled(t, expired) =>
      var i := IndexOf(s.shared.queue, t);
      if i < |s.shared.queue| {
        assert WaitingOk(s.shared, s.shared.queue[i]);
        SettleWaitingIsTallied(s.shared, i, expired);
      }
    case StopAll(expired) => StopIsTallied(c, s, expired);
    case EnterStore(w) => EnterIsTallied(c, s, w);
    case FinishTask(w) => FinishIsTallied(c, s, w);
    case _ => SameTally(s.shared, Step(c, s, a).shared);
  }

  lemma {:induction false} RunIsTallied(c: ExecutorConfig, s: System, actions: seq<Action>)
    requires Inv(c, s) && Tallied(s.shared)
    ensures Tallied(Run(c, s, actions).shared)
    decreases |actions|
  {
    hide Inv, Tallied, Step, Enabled;
    if actions != [] {
      if Enabled(s, actions[0]) {
        StepIsSafe(c, s, actions[0]);
        StepIsTallied(c, s, actions[0]);
        RunIsTallied(c, Step(c, s, actions[0]), actions[1..]);
      } else {
        RunIsTallied(c, s, actions[1..]);
      }
    }
  }

  /** In every interleaving each counter of outcomes is the number of promises settled that way, and the counter of
      started tasks is the number of those that reached the store. */
  lemma CountersTally(c: ExecutorConfig, s: System)
    requires Reachable(c, s)
    ensures var st, p := s.shared.stats, s.shared.promises;
            && st.succeeded == Tally(p, KindSuccess) && st.failed == Tally(p, KindError)
            && st.cancelled == Tally(p, KindCancelled) && st.expired == Tally(p, KindExpired)
            && st.started == |s.shared.reached|
  {
    var actions :| Run(c, Start(c), actions) == s;
    StartIsSafe(c);
    assert Tallied(Start(c).shared);
    RunIsTallied(c, Start(c), actions);
    var st := s.shared.stats;
    assert CounterOf(st, KindSuccess) == st.succeeded && CounterOf(st, KindError) == st.failed;
    assert CounterOf(st, KindCancelled) == st.cancelled && CounterOf(st, KindExpired) == st.expired;
  }

  // ---------- Cancelling a waiting task ----------

  /** A waiting task that is cancelled is settled at once, as interrupted by the first reason requested of it. It
      leaves the queue, the others keep their order, and nobody else's promise or reason changes. */
  lemma WaitingIsCancelled(c: ExecutorConfig, s: System, i: nat, reason: StopReason)
    requires Reachable(c, s) && i < |s.shared.queue| && reason != NoReason
    ensures var t := s.shared.queue[i];
            && Enabled(s, RequestStop(t, reason))
            && var asked := Step(c, s, RequestStop(t, reason));
               && Enabled(asked, RemoveCancelled(t, t in s.passed))
               && var r := Step(c, asked, RemoveCancelled(t, t in s.passed)).shared;
                  && r.queue == s.shared.queue[..i] + s.shared.queue[i + 1..]
                  && r.promises == s.shared.promises[t := Some(Interrupted(r.reasons[t]))]
                  && r.reasons == s.shared.reasons[t := Requested(s.shared.reasons[t], reason)]
                  && r.active == s.shared.active && r.stopping == s.shared.stopping
  {
    ReachableIsSafe(c, s);
    var t := s.shared.queue[i];
    assert WaitingOk(s.shared, t);
    IndexInOrder(s.shared.queue, i);
  }

  lemma IndexInOrder(queue: seq<nat>, i: nat)
    requires Increasing(queue) && i < |queue|
    ensures IndexOf(queue, queue[i]) == i
  {
    var k := IndexOf(queue, queue[i]);
    assert queue[i] in queue;
    InOrder(queue, i, k);
    InOrder(queue, k, i);
  }

  lemma InOrder(queue: seq<nat>, i: nat, k: nat)
    requires Increasing(queue) && i < |queue| && k < |queue|
    ensures i < k ==> queue[i] < queue[k]
  {
  }

  // ---------- Stopping ----------

  lemma {:induction false} SignalledAre(c: ExecutorConfig, s: Shared, w: nat)
    requires w <= |s.active| && ActiveKnown(s)
    requires forall v, u :: w <= v < u < |s.active| && s.active[v].Some? ==> s.active[v] != s.active[u]
    ensures forall t :: 0 <= t < |s.reasons| ==>
      StopActive(s, w).reasons[t] == if exists v :: w <= v < |s.active| && s.active[v] == Some(t)
                                     then Requested(s.reasons[t], Shutdown) else s.reasons[t]
    decreases |s.active| - w
  {
    if w < |s.active| {
      if s.active[w].Some? {
        var next := Request(s, s.active[w].value, Shutdown);
        forall v | 0 <= v < |next.active| && next.active[v].Some? ensures Known(next, next.active[v].value) {
          assert Known(s, s.active[v].value);
        }
        SignalledAre(c, next, w + 1);
      } else {
        SignalledAre(c, s, w + 1);
      }
    }
  }

  /** The queue is emptied: each waiting task is settled with the first reason requested of it, the shutdown if
      there was none. */
  lemma {:induction false} DrainedAre(s: Shared, expired: bool, t: nat)
    requires AllKnown(s, s.queue) && Increasing(s.queue) && Known(s, t)
    ensures var r := Drain(s, expired);
            && Known(r, t)
            && r.reasons[t] == (if t in s.queue then Requested(s.reasons[t], Shutdown) else s.reasons[t])
            && r.promises[t] == (if t in s.queue then Some(Interrupted(r.reasons[t])) else s.promises[t])
    decreases |s.queue|
  {
    if s.queue != [] {
      var next := DrainOne(s, expired);
      forall i | 0 <= i < |next.queue| ensures Known(next, next.queue[i]) && next.queue[i] != s.queue[0] {
        assert Known(s, s.queue[i + 1]) && s.queue[0] < s.queue[i + 1];
      }
      assert Increasing(next.queue);
      DrainedAre(next, expired, t);
      assert s.queue == [s.queue[0]] + s.queue[1..];
    }
  }

  /** The first stop signals exactly the tasks that wait or are held by a worker, and settles exactly the ones that
      wait, each with the first reason requested of it. */
  lemma StopIsExact(c: ExecutorConfig, s: System, expired: bool, t: nat)
    requires Reachable(c, s) && !s.shared.stopping && t < |s.shared.promises|
    ensures Enabled(s, StopAll(expired)) && Known(s.shared, t)
    ensures var r := Step(c, s, StopAll(expired)).shared;
            && Known(r, t) && r.stopping && r.queue == [] && r.active == s.shared.active
            && (r.reasons[t] == if t in s.shared.queue || IsHeld(s.threads, t)
                                then Requested(s.shared.reasons[t], Shutdown) else s.shared.reasons[t])
            && (r.promises[t] == if t in s.shared.queue then Some(Interrupted(r.reasons[t])) else s.shared.promises[t])
  {
    hide StopActive, Drain, Core, ActiveKnown, AllKnown, Reachable, Counted;
    ReachableIsSafe(c, s);
    QueueIncreases(c, s);
    CoreCanStop(c, s);
    SignalIsSafe(c, s);
    CoreCanStop(c, s.(shared := StopActive(s.shared.(stopping := true), 0)));
    WaitingIsNotHeld(c, s, t);
    SignalIsExact(c, s, t);
    var signalled := StopActive(s.shared.(stopping := true), 0);
    DrainedAre(signalled, expired, t);
    DrainLeaves(signalled, expired);
  }

  /** The loop over the running tasks signals those that a worker holds, and does nothing else. */
  lemma SignalIsExact(c: ExecutorConfig, s: System, t: nat)
    requires Inv(c, s) && t < |s.shared.promises|
    ensures Known(s.shared, t) && ActiveKnown(s.shared.(stopping := true))
    ensures var r := StopActive(s.shared.(stopping := true), 0);
            && r == s.shared.(stopping := true, reasons := r.reasons) && |r.reasons| == |s.shared.reasons|
            && r.reasons[t] == if IsHeld(s.threads, t) then Requested(s.shared.reasons[t], Shutdown)
                               else s.shared.reasons[t]
  {
    ActiveOnce(c, s);
    HeldIsActive(c, s, t);
    CoreCanStop(c, s);
    var start := s.shared.(stopping := true);
    forall w | 0 <= w < |start.active| && start.active[w].Some? ensures Known(start, start.active[w].value) {
      assert Known(s.shared, s.shared.active[w].value);
    }
    hide Core, StopActive;
    SignalledAre(c, start, 0);
  }

  lemma QueueIncreases(c: ExecutorConfig, s: System)
    requires Reachable(c, s)
    ensures Increasing(s.shared.queue)
  {
    ReachableIsSafe(c, s);
  }

  lemma {:induction false} DrainLeaves(s: Shared, expired: bool)
    requires AllKnown(s, s.queue)
    ensures Drain(s, expired).stopping == s.stopping && Drain(s, expired).active == s.active
    decreases |s.queue|
  {
    if s.queue != [] {
      var next := DrainOne(s, expired);
      forall i | 0 <= i < |next.queue| ensures Known(next, next.queue[i]) {
        assert Known(s, s.queue[i + 1]);
      }
      DrainLeaves(next, expired);
    }
  }

  lemma ActiveOnce(c: ExecutorConfig, s: System)
    requires Inv(c, s)
    ensures forall v, u :: 0 <= v < u < |s.shared.active| && s.shared.active[v].Some? ==>
      s.shared.active[v] != s.shared.active[u]
  {
    forall v, u | 0 <= v < u < |s.shared.active| && s.shared.active[v].Some?
      ensures s.shared.active[v] != s.shared.active[u]
    {
      assert ThreadOk(s.shared, s.threads[v], s.shared.active[v]);
      assert ThreadOk(s.shared, s.threads[u], s.shared.active[u]);
    }
  }

  lemma HeldIsActive(c: ExecutorConfig, s: System, t: nat)
    requires Inv(c, s)
    ensures IsHeld(s.threads, t) <==> exists v :: 0 <= v < |s.shared.active| && s.shared.active[v] == Some(t)
  {
    forall v | 0 <= v < |s.threads| ensures s.shared.active[v] == Held(s.threads[v]) {
      assert ThreadOk(s.shared, s.threads[v], s.shared.active[v]);
    }
  }

  lemma WaitingIsNotHeld(c: ExecutorConfig, s: System, t: nat)
    requires Inv(c, s)
    ensures !(t in s.shared.queue && IsHeld(s.threads, t))
  {
    if IsHeld(s.threads, t) {
      var w :| 0 <= w < |s.threads| && Held(s.threads[w]) == Some(t);
      assert ThreadOk(s.shared, s.threads[w], s.shared.active[w]);
    }
  }

  // ---------- Admission and delivery ----------

  /** A submission is admitted exactly while the executor runs and the queue has room. It is then last in line,
      unsettled and unsignalled; nothing happens to the others. */
  lemma AdmittedIff(c: ExecutorConfig, s: System, hasDeadline: bool)
    requires Reachable(c, s)
    ensures var t, r := |s.shared.promises|, Step(c, s, SubmitTask(hasDeadline)).shared;
            && (|r.promises| > t <==> !s.shared.stopping && |s.shared.queue| < c.queueCapacity)
            && (|r.promises| > t ==>
                  && r.queue == s.shared.queue + [t] && r.promises == s.shared.promises + [None]
                  && r.reasons == s.shared.reasons + [NoReason] && r.deadlines == s.shared.deadlines + [hasDeadline]
                  && r.stats.rejected == s.shared.stats.rejected)
            && (|r.promises| <= t ==>
                  && r.queue == s.shared.queue && r.promises == s.shared.promises
                  && r.stats.rejected == s.shared.stats.rejected + 1)
  {
    ReachableIsSafe(c, s);
  }

  /** The way of one task from the front of the queue to its caller. */
  function Serving(w: nat): seq<Action> {
    [TakeTask(w), CheckContext(w, false), EnterStore(w), StoreReturns(w, Success), FinishTask(w)]
  }

  /** The task at the front of the queue that nobody stops gets its result, and only it. */
  lemma FrontIsServed(c: ExecutorConfig, s: System, w: nat)
    requires Reachable(c, s) && s.shared.queue != [] && w < |s.threads| && s.threads[w].Idle?
    requires Known(s.shared, s.shared.queue[0]) && s.shared.reasons[s.shared.queue[0]] == NoReason
    requires s.shared.queue[0] !in s.passed
    ensures var t, r := s.shared.queue[0], Run(c, s, Serving(w)).shared;
            && r.promises == s.shared.promises[t := Some(Success)]
            && r.queue == s.shared.queue[1..] && r.reasons == s.shared.reasons
  {
    ReachableIsSafe(c, s);
    hide Run, Inv, Counted, Reachable;
    assert |s.threads| == |s.shared.active|;
    var s1 := Step(c, s, TakeTask(w));
    var s2 := Step(c, s1, CheckContext(w, false));
    var s3 := Step(c, s2, EnterStore(w));
    var s4 := Step(c, s3, StoreReturns(w, Success));
    RunOfFive(c, s, TakeTask(w), CheckContext(w, false), EnterStore(w), StoreReturns(w, Success), FinishTask(w));
  }

  lemma RunFirst(c: ExecutorConfig, s: System, a: Action, rest: seq<Action>)
    ensures Run(c, s, [a] + rest) == Run(c, if Enabled(s, a) then Step(c, s, a) else s, rest)
  {
    hide Step, Enabled;
    assert ([a] + rest)[1..] == rest;
  }

  ghost function Try(c: ExecutorConfig, s: System, a: Action): System {
    if Enabled(s, a) then Step(c, s, a) else s
  }

  lemma RunOfFive(c: ExecutorConfig, s: System, a1: Action, a2: Action, a3: Action, a4: Action, a5: Action)
    ensures Run(c, s, [a1, a2, a3, a4, a5]) == Try(c, Try(c, Try(c, Try(c, Try(c, s, a1), a2), a3), a4), a5)
  {
    hide Step, Enabled;
    var s1 := Try(c, s, a1);
    var s2 := Try(c, s1, a2);
    var s3 := Try(c, s2, a3);
    var s4 := Try(c, s3, a4);
    RunFirst(c, s, a1, [a2, a3, a4, a5]);
    RunFirst(c, s1, a2, [a3, a4, a5]);
    RunFirst(c, s2, a3, [a4, a5]);
    RunFirst(c, s3, a4, [a5]);
    RunFirst(c, s4, a5, []);
    assert [a1] + [a2, a3, a4, a5] == [a1, a2, a3, a4, a5] && [a2] + [a3, a4, a5] == [a2, a3, a4, a5];
    assert [a3] + [a4, a5] == [a3, a4, a5] && [a4] + [a5] == [a4, a5] && [a5] + [] == [a5];
  }

  /** Whatever a worker's store call or check came to is what its task is settled with. */
  lemma OutcomeIsDelivered(c: ExecutorConfig, s: System, w: nat)
    requires Reachable(c, s) && w < |s.threads| && s.threads[w].Finishing?
    ensures Enabled(s, FinishTask(w))
    ensures var r := Step(c, s, FinishTask(w));
            && r.shared.promises == s.shared.promises[s.threads[w].task := Some(s.threads[w].outcome)]
            && r.threads == s.threads[w := Idle] && r.shared.active == s.shared.active[w := None]
            && r.shared.queue == s.shared.queue && r.shared.reasons == s.shared.reasons
  {
    ReachableIsSafe(c, s);
    assert ThreadOk(s.shared, s.threads[w], s.shared.active[w]);
    BusyUpdate(s.threads, w, Idle);
  }

  // ---------- Peaks ----------

  /** The published peaks are attained: each is the one before the run or was the number of waiting, or of running,
      tasks at some point of it. */
  lemma {:induction false} PeaksAreAttained(c: ExecutorConfig, s: System, actions: seq<Action>)
    requires Inv(c, s)
    ensures var p := Run(c, s, actions).shared.stats.peakQueued;
            p == s.shared.stats.peakQueued
            || exists k :: 0 <= k <= |actions| && Run(c, s, actions[..k]).shared.stats.queued == p
    ensures var p := Run(c, s, actions).shared.stats.peakRunning;
            p == s.shared.stats.peakRunning
            || exists k :: 0 <= k <= |actions| && Run(c, s, actions[..k]).shared.stats.running == p
    decreases |actions|
  {
    hide Inv, Step, Enabled;
    if actions != [] {
      var n := |actions| - 1;
      PeaksAreAttained(c, s, actions[..n]);
      RunIsSafe(c, s, actions[..n]);
      RunJoins(c, s, actions[..n], [actions[n]]);
      assert actions[..n] + [actions[n]] == actions == actions[..|actions|];
      var before := Run(c, s, actions[..n]);
      RunFirst(c, before, actions[n], []);
      assert [actions[n]] + [] == [actions[n]];
      forall k | 0 <= k <= n ensures actions[..n][..k] == actions[..k] {
      }
      if Enabled(before, actions[n]) {
        StepPeaks(c, before, actions[n]);
      }
    }
  }

  lemma StepPeaks(c: ExecutorConfig, s: System, a: Action)
    requires Inv(c, s) && Enabled(s, a)
    ensures var st, r := s.shared.stats, Step(c, s, a).shared.stats;
            && (r.peakQueued == st.peakQueued || r.peakQueued == r.queued)
            && (r.peakRunning == st.peakRunning || r.peakRunning == r.running)
  {
    if a.StopAll? {
      StopLeavesPeaks(s.shared, a.expired);
    }
    hide Stop, Inv;
  }

  lemma StopLeavesPeaks(s: Shared, expired: bool)
    requires CanStop(s)
    ensures var st, r := s.stats, Stop(s, expired).stats;
            r.peakQueued == st.peakQueued && r.peakRunning == st.peakRunning
  {
    if !s.stopping {
      var signalled := StopActive(s.(stopping := true), 0);
      forall i | 0 <= i < |signalled.queue| ensures Known(signalled, signalled.queue[i]) {
        assert Known(s, s.queue[i]);
      }
      DrainLeavesPeaks(signalled, expired);
    }
  }

  lemma {:induction false} DrainLeavesPeaks(s: Shared, expired: bool)
    requires AllKnown(s, s.queue)
    ensures var st, r := s.stats, Drain(s, expired).stats;
            r.peakQueued == st.peakQueued && r.peakRunning == st.peakRunning
    decreases |s.queue|
  {
    if s.queue != [] {
      var next := DrainOne(s, expired);
      forall i | 0 <= i < |next.queue| ensures Known(next, next.queue[i]) {
        assert Known(s, s.queue[i + 1]);
      }
      DrainLeavesPeaks(next, expired);
    }
  }
}
