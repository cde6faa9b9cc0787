/** Workers get things done, before a stop as well as after it. */
module ExecutorProgress {
  import opened Wrappers
  import opened ExecutorSteps
  import opened ExecutorRuns

  lemma HolderProceeds(c: ExecutorConfig, s: System, w: nat)
    requires Inv(c, s) && w < |s.threads| && Held(s.threads[w]).Some?
    ensures Enabled(s, NextAction(s, w))
  {
    assert ThreadOk(s.shared, s.threads[w], s.shared.active[w]);
    BusyUpdate(s.threads, w, Idle);
  }

  /** The executor never deadlocks: while a task is unsettled, stopped or not, some worker has a step to take. */
  lemma WorkersProceed(c: ExecutorConfig, s: System, t: nat) returns (w: nat)
    requires Reachable(c, s) && c.workers > 0 && t < |s.shared.promises| && s.shared.promises[t] == None
    ensures w < |s.threads| && IsWorkerStep(NextAction(s, w)) && Enabled(s, NextAction(s, w))
  {
    ReachableIsSafe(c, s);
    assert TaskOk(s.shared, s.threads, t);
    if IsHeld(s.threads, t) {
      w :| 0 <= w < |s.threads| && Held(s.threads[w]) == Some(t);
      HolderProceeds(c, s, w);
    } else {
      w := 0;
      assert ThreadOk(s.shared, s.threads[0], s.shared.active[0]);
      if Held(s.threads[0]).Some? {
        HolderProceeds(c, s, 0);
      }
    }
  }

  /** All that is left to do: what the workers hold, and a whole round for each waiting task. */
  function Pending(s: System): nat {
    6 * |s.shared.queue| + Remaining(s.threads)
  }

  lemma DrainEmpties(s: Shared, expired: bool)
    requires CanStop(s)
    ensures |Stop(s, expired).queue| <= |s.queue|
  {
  }

  lemma RemovalShortens(s: Shared, t: nat, expired: bool)
    requires Known(s, t)
    ensures |RemoveWaiting(s, t, expired).queue| <= |s.queue|
  {
  }

  lemma WorkerStepDecreases(c: ExecutorConfig, s: System, a: Action)
    requires Enabled(s, a) && IsWorkerStep(a)
    ensures Pending(Step(c, s, a)) < Pending(s)
  {
    hide Remaining, Counted;
    RemainingUpdate(s.threads, a.worker, Step(c, s, a).threads[a.worker]);
  }

  /** Every worker step leaves less to do; only an admission adds something, one round. */
  lemma StepsDecrease(c: ExecutorConfig, s: System, a: Action)
    requires Enabled(s, a)
    ensures var t := Step(c, s, a);
            if IsWorkerStep(a) then Pending(t) < Pending(s)
            else if a.SubmitTask? then Pending(t) <= Pending(s) + 6
            else Pending(t) <= Pending(s)
  {
    hide Stop, CanStop, RemoveWaiting, Remaining;
    match a
    case SubmitTask(_) =>
    case RequestStop(_, _) =>
    case DeadlinePasses(_) =>
    case RemoveCancelled(t, expired) => RemovalShortens(s.shared, t, expired);
    case StopAll(expired) => DrainEmpties(s.shared, expired);
    case _ => WorkerStepDecreases(c, s, a);
  }

  function Submissions(actions: seq<Action>): nat {
    if actions == [] then 0 else (if actions[0].SubmitTask? then 1 else 0) + Submissions(actions[1..])
  }

  /** In every run the workers take no more steps than the work allows: six for each submission, and what was
      pending before. So once nothing more is submitted, every admitted task is settled after boundedly many. */
  lemma {:induction false} RunsAreBounded(c: ExecutorConfig, s: System, actions: seq<Action>)
    ensures WorkerSteps(c, s, actions) + Pending(Run(c, s, actions)) <= Pending(s) + 6 * Submissions(actions)
    decreases |actions|
  {
    hide Pending, Step, Enabled;
    if actions != [] {
      if Enabled(s, actions[0]) {
        StepsDecrease(c, s, actions[0]);
        RunsAreBounded(c, Step(c, s, actions[0]), actions[1..]);
      } else {
        RunsAreBounded(c, s, actions[1..]);
      }
    }
  }
}
