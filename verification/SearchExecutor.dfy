/** The executor object. Each method body up to its mutex release is one critical section, proved equal
    to a step of the state machine. Shared cancellation states are held by task number. */
module SearchExecutorObject {
  import opened Numbers
  import opened Wrappers
  import opened SearchContextModel
  import opened ExecutorSteps

  datatype SubmitOutcome = Ticket(task: nat) | Rejected(stopping: bool)

  datatype CancelOutcome = CancelDone | InvalidArgument

  class SearchExecutor {
    const config: ExecutorConfig
    var queue: seq<nat>
    var active: seq<Option<nat>>
    var stopping: bool
    var stats: Stats
    var reasons: seq<StopReason>
    var deadlines: seq<bool>
    var promises: seq<Option<Settlement>>
    ghost var dispatched: seq<nat>
    ghost var reached: set<nat>
    ghost var removed: set<nat>

    ghost function State(): Shared
      reads this
    {
      Shared(queue, active, stopping, stats, reasons, deadlines, promises, dispatched, reached, removed)
    }

    ghost predicate Valid()
      reads this
    {
      && |active| == config.workers
      && stats.admitted == |reasons| == |deadlines| == |promises|
      && (forall i :: 0 <= i < |queue| ==> queue[i] < |promises|)
      && (forall w :: 0 <= w < |active| && active[w].Some? ==> active[w].value < |promises|)
    }

    constructor (config: ExecutorConfig)
      requires config.workers > 0 && config.queueCapacity > 0
      ensures Valid() && this.config == config && State() == Initial(config.workers)
    {
      this.config := config;
      queue, active, stopping, stats := [], seq(config.workers, _ => None), false, NO_STATS;
      reasons, deadlines, promises := [], [], [];
      dispatched, reached, removed := [], {}, {};
    }

    /** Construction throws without a store, unless all limits are positive, and if the platform cannot start
        that many threads; the ones that did start are then stopped. */
    static method Create(hasStore: bool, config: ExecutorConfig, checkInterval: nat, startable: nat)
      returns (r: SearchExecutor?)
      ensures r != null <==> hasStore && config.workers > 0 && config.queueCapacity > 0 && checkInterval > 0
                             && config.workers <= startable
      ensures r != null ==> fresh(r) && r.Valid() && r.config == config && r.State() == Initial(config.workers)
    {
      if !hasStore || config.workers == 0 || config.queueCapacity == 0 || checkInterval == 0 {
        return null;
      }
      r := new SearchExecutor(config);
      if config.workers > startable {
        r.Stop(false);
        r := null;
      }
    }

    method Submit(hasDeadline: bool) returns (r: SubmitOutcome)
      requires Valid()
      modifies this
      ensures Valid()
      ensures State() == ExecutorSteps.Submit(config, old(State()), hasDeadline)
      ensures r == if old(stopping) || |old(queue)| >= config.queueCapacity then Rejected(old(stopping))
                   else Ticket(old(stats.admitted))
    {
      if stopping || |queue| >= config.queueCapacity {
        stats := stats.(rejected := stats.rejected + 1);
        return Rejected(stopping);
      }
      var task := stats.admitted;
      reasons, deadlines, promises := reasons + [NoReason], deadlines + [hasDeadline], promises + [None];
      queue := queue + [task];
      stats := stats.(admitted := stats.admitted + 1);
      stats := stats.(queued := |queue|);
      stats := stats.(peakQueued := Most(stats.peakQueued, stats.queued));
      r := Ticket(task);
    }

    /** `finish_locked`: fulfil the promise and count the outcome. */
    method FinishLocked(t: nat, outcome: Settlement)
      requires Valid() && t < |promises|
      modifies this`promises, this`stats
      ensures Valid() && State() == Settle(old(State()), t, outcome)
    {
      stats := Counted(stats, outcome);
      promises := promises[t := Some(outcome)];
    }

    method CancelWaitingLocked(t: nat, expired: bool)
      requires Valid() && t < |promises|
      modifies this`promises, this`stats
      ensures Valid() && State() == Settle(old(State()), t, WaitingOutcome(old(State()), t, expired))
    {
      var stop := StopFor(reasons[t], deadlines[t], expired);
      var outcome := if stop.Some? then Interrupted(stop.value) else Success;
      FinishLocked(t, outcome);
    }

    method FindWaiting(t: nat) returns (i: nat)
      ensures i == IndexOf(queue, t)
    {
      i := 0;
      while i < |queue| && queue[i] != t
        invariant i <= |queue| && IndexOf(queue, t) == i + IndexOf(queue[i..], t)
      {
        assert queue[i..][1..] == queue[i + 1..];
        i := i + 1;
      }
    }

    /** Signal a task, then settle it at once if it is still waiting. */
    method Cancel(ticket: Option<nat>, reason: StopReason, expired: bool) returns (r: CancelOutcome)
      requires Valid() && (ticket.Some? ==> ticket.value < |promises|)
      modifies this
      ensures Valid()
      ensures r == if ticket.None? || reason == NoReason then InvalidArgument else CancelDone
      ensures State() == if r == InvalidArgument then old(State())
                         else RemoveWaiting(Request(old(State()), ticket.value, reason), ticket.value, expired)
    {
      if ticket.None? || reason == NoReason {
        return InvalidArgument;
      }
      var t := ticket.value;
      reasons := reasons[t := Requested(reasons[t], reason)];
      var i := FindWaiting(t);
      if i != |queue| {
        RemoveAt(i, expired);
      }
      r := CancelDone;
    }

    /** Take a waiting task out of the queue and settle it. */
    method RemoveAt(i: nat, expired: bool)
      requires Valid() && i < |queue| && i == IndexOf(queue, queue[i])
      modifies this`queue, this`stats, this`removed, this`promises
      ensures Valid() && State() == RemoveWaiting(old(State()), old(queue)[i], expired)
    {
      var t := queue[i];
      queue := queue[..i] + queue[i + 1..];
      stats := stats.(queued := |queue|);
      removed := removed + {t};
      CancelWaitingLocked(t, expired);
    }

    method Stop(expired: bool)
      requires Valid()
      modifies this
      ensures Valid()
      ensures CanStop(old(State())) && State() == ExecutorSteps.Stop(old(State()), expired)
    {
      if stopping {
        return;
      }
      stopping := true;
      SignalActive();
      DrainQueue(expired);
    }

    method SignalActive()
      requires Valid()
      modifies this`reasons
      ensures Valid() && ActiveKnown(old(State())) && State() == StopActive(old(State()), 0)
    {
      for w := 0 to |active|
        invariant Valid() && ActiveKnown(State())
        invariant unchanged(this`active) && unchanged(this`promises) && unchanged(this`stats)
        invariant StopActive(State(), w) == StopActive(old(State()), 0)
      {
        if active[w].Some? {
          reasons := reasons[active[w].value := Requested(reasons[active[w].value], Shutdown)];
        }
      }
    }

    method DrainQueue(expired: bool)
      requires Valid()
      modifies this`queue, this`stats, this`reasons, this`promises, this`removed
      ensures Valid() && AllKnown(old(State()), old(queue)) && State() == Drain(old(State()), expired)
    {
      while queue != []
        invariant Valid() && AllKnown(State(), queue)
        invariant Drain(State(), expired) == Drain(old(State()), expired)
        decreases |queue|
      {
        DrainFront(expired);
      }
    }

    method DrainFront(expired: bool)
      requires Valid() && queue != []
      modifies this`queue, this`stats, this`reasons, this`promises, this`removed
      ensures Valid() && AllKnown(State(), queue) && State() == DrainOne(old(State()), expired)
    {
      var t := queue[0];
      queue := queue[1..];
      stats := stats.(queued := |queue|);
      removed := removed + {t};
      reasons := reasons[t := Requested(reasons[t], Shutdown)];
      CancelWaitingLocked(t, expired);
    }

    /** A worker's waiting loop, when its condition is evaluated. */
    method NextTask(w: nat) returns (r: Dispatch)
      requires Valid() && w < config.workers
      modifies this
      ensures Valid()
      ensures r == old(NextDispatch(State()))
      ensures State() == if r.Take? then Dequeue(old(State()), w) else old(State())
    {
      if queue == [] {
        return if stopping then Exit else Wait;
      }
      var t := queue[0];
      queue := queue[1..];
      dispatched := dispatched + [t];
      stats := stats.(queued := |queue|);
      active := active[w := Some(t)];
      stats := stats.(running := stats.running + 1);
      stats := stats.(peakRunning := Most(stats.peakRunning, stats.running));
      r := Take(t);
    }

    method MarkStarted(t: nat)
      requires Valid()
      modifies this`stats, this`reached
      ensures Valid() && State() == CountStart(old(State()), t)
    {
      stats := stats.(started := stats.started + 1);
      reached := reached + {t};
    }

    method FinishTask(w: nat, t: nat, outcome: Settlement)
      requires Valid() && w < config.workers && t < |promises| && stats.running > 0
      modifies this
      ensures Valid() && State() == Complete(old(State()), w, t, outcome)
    {
      active := active[w := None];
      stats := stats.(running := stats.running - 1);
      FinishLocked(t, outcome);
    }
  }
}
