/** Why tasks are interrupted: the reason a task is settled with is always its own. */
module ExecutorReasons {
  import opened SearchContextModel
  import opened ExecutorSteps
  import opened ExecutorRuns

  /** The reason was requested of this task, or its deadline passed. */
  ghost predicate Genuine(s: Shared, passed: set<nat>, t: nat, outcome: Settlement) {
    outcome.Interrupted? ==>
      && Known(s, t) && outcome.reason != NoReason
      && (outcome.reason == s.reasons[t] || (outcome.reason == DeadlineExceeded && s.deadlines[t] && t in passed))
  }

  ghost predicate AllGenuine(s: System) {
    && |s.shared.reasons| == |s.shared.deadlines| == |s.shared.promises|
    && (forall t :: 0 <= t < |s.shared.promises| && s.shared.promises[t].Some? ==>
          Genuine(s.shared, s.passed, t, s.shared.promises[t].value))
    && (forall w :: 0 <= w < |s.threads| && s.threads[w].Finishing? ==>
          Genuine(s.shared, s.passed, s.threads[w].task, s.threads[w].outcome))
  }

  lemma WaitingIsGenuine(s: Shared, passed: set<nat>, t: nat, expired: bool)
    requires Known(s, t) && s.reasons[t] != NoReason
    ensures Genuine(s, passed, t, WaitingOutcome(s, t, expired))
  {
  }

  lemma RequestStaysGenuine(s: System, t: nat, reason: StopReason)
    requires AllGenuine(s) && Known(s.shared, t)
    ensures AllGenuine(s.(shared := Request(s.shared, t, reason)))
  {
  }

  lemma SettleStaysGenuine(s: System, t: nat, outcome: Settlement)
    requires AllGenuine(s) && Known(s.shared, t) && Genuine(s.shared, s.passed, t, outcome)
    ensures AllGenuine(s.(shared := Settle(s.shared, t, outcome)))
  {
  }

  lemma RemoveStaysGenuine(s: System, t: nat, expired: bool)
    requires AllGenuine(s) && Known(s.shared, t) && s.shared.reasons[t] != NoReason
    ensures AllGenuine(s.(shared := RemoveWaiting(s.shared, t, expired)))
  {
    hide Settle, WaitingOutcome, Genuine;
    var i := IndexOf(s.shared.queue, t);
    if i < |s.shared.queue| {
      var taken := s.shared.(queue := s.shared.queue[..i] + s.shared.queue[i + 1..], removed := s.shared.removed + {t},
                             stats := s.shared.stats.(queued := |s.shared.queue| - 1));
      SameReasons(s, taken);
      WaitingIsGenuine(taken, s.passed, t, expired);
      SettleStaysGenuine(s.(shared := taken), t, WaitingOutcome(taken, t, expired));
    }
  }

  /** Queue, counters and records do not matter. */
  lemma SameReasons(s: System, r: Shared)
    requires AllGenuine(s)
    requires r.reasons == s.shared.reasons && r.deadlines == s.shared.deadlines && r.promises == s.shared.promises
    ensures AllGenuine(s.(shared := r))
  {
  }

  lemma {:induction false} StopActiveStaysGenuine(s: System, w: nat)
    requires AllGenuine(s) && w <= |s.shared.active| && ActiveKnown(s.shared)
    ensures AllGenuine(s.(shared := StopActive(s.shared, w)))
    decreases |s.shared.active| - w
  {
    if w < |s.shared.active| {
      if s.shared.active[w].Some? {
        var next := Request(s.shared, s.shared.active[w].value, Shutdown);
        RequestStaysGenuine(s, s.shared.active[w].value, Shutdown);
        forall v | 0 <= v < |next.active| && next.active[v].Some? ensures Known(next, next.active[v].value) {
          assert Known(s.shared, s.shared.active[v].value);
        }
        StopActiveStaysGenuine(s.(shared := next), w + 1);
      } else {
        StopActiveStaysGenuine(s, w + 1);
      }
    }
  }

  lemma DrainOneStaysGenuine(s: System, expired: bool)
    requires AllGenuine(s) && s.shared.queue != [] && Known(s.shared, s.shared.queue[0])
    ensures AllGenuine(s.(shared := DrainOne(s.shared, expired)))
  {
    hide Settle, WaitingOutcome, Genuine;
    var t := s.shared.queue[0];
    var popped := s.shared.(queue := s.shared.queue[1..], removed := s.shared.removed + {t},
                            stats := s.shared.stats.(queued := |s.shared.queue| - 1));
    SameReasons(s, popped);
    RequestStaysGenuine(s.(shared := popped), t, Shutdown);
    var taken := Request(popped, t, Shutdown);
    WaitingIsGenuine(taken, s.passed, t, expired);
    SettleStaysGenuine(s.(shared := taken), t, WaitingOutcome(taken, t, expired));
  }

  lemma {:induction false} DrainStaysGenuine(s: System, expired: bool)
    requires AllGenuine(s) && AllKnown(s.shared, s.shared.queue)
    ensures AllGenuine(s.(shared := Drain(s.shared, expired)))
    decreases |s.shared.queue|
  {
    if s.shared.queue != [] {
      hide AllGenuine, Settle;
      DrainOneStaysGenuine(s, expired);
      var next := DrainOne(s.shared, expired);
      forall i | 0 <= i < |next.queue| ensures Known(next, next.queue[i]) {
        assert Known(s.shared, s.shared.queue[i + 1]);
      }
      DrainStaysGenuine(s.(shared := next), expired);
    }
  }

  lemma StopStaysGenuine(s: System, expired: bool)
    requires AllGenuine(s) && CanStop(s.shared)
    ensures AllGenuine(s.(shared := Stop(s.shared, expired)))
  {
    hide Drain;
    if !s.shared.stopping {
      var start := s.shared.(stopping := true);
      assert ActiveKnown(start);
      StopActiveStaysGenuine(s.(shared := start), 0);
      var signalled := StopActive(start, 0);
      hide StopActive, AllGenuine;
      forall i | 0 <= i < |signalled.queue| ensures Known(signalled, signalled.queue[i]) {
        assert Known(s.shared, s.shared.queue[i]);
      }
      DrainStaysGenuine(s.(shared := signalled), expired);
    }
  }

  lemma StepStaysGenuine(c: ExecutorConfig, s: System, a: Action)
    requires AllGenuine(s) && Enabled(s, a)
    ensures AllGenuine(Step(c, s, a))
  {
    hide Stop, CanStop, RemoveWaiting, Counted;
    match a
    case RequestStop(t, reason) => RequestStaysGenuine(s, t, reason);
    case RemoveCancelled(t, expired) => RemoveStaysGenuine(s, t, expired);
    case StopAll(expired) => StopStaysGenuine(s, expired);
    case _ =>
  }

  lemma {:induction false} RunStaysGenuine(c: ExecutorConfig, s: System, actions: seq<Action>)
    requires AllGenuine(s)
    ensures AllGenuine(Run(c, s, actions))
    decreases |actions|
  {
    if actions != [] {
      if Enabled(s, actions[0]) {
        StepStaysGenuine(c, s, actions[0]);
        RunStaysGenuine(c, Step(c, s, actions[0]), actions[1..]);
      } else {
        RunStaysGenuine(c, s, actions[1..]);
      }
    }
  }

  /** In every interleaving: a task settled as interrupted was asked to stop for exactly that reason, which nobody
      changes afterwards, or had a deadline that passed. */
  lemma ReasonsAreGenuine(c: ExecutorConfig, s: System, t: nat)
    requires Reachable(c, s) && t < |s.shared.promises| && s.shared.promises[t].Some?
    requires s.shared.promises[t].value.Interrupted?
    ensures Known(s.shared, t)
    ensures var reason := s.shared.promises[t].value.reason;
            && reason != NoReason
            && (reason == s.shared.reasons[t]
                || (reason == DeadlineExceeded && s.shared.deadlines[t] && t in s.passed))
  {
    var actions :| Run(c, Start(c), actions) == s;
    RunStaysGenuine(c, Start(c), actions);
  }
}
