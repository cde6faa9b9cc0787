/** The critical sections of the search executor as functions on its shared state. */
module ExecutorSteps {
  import opened Numbers
  import opened Wrappers
  import opened SearchContextModel

  datatype ExecutorConfig = ExecutorConfig(workers: nat, queueCapacity: nat)

  /** How a task's promise is fulfilled. */
  datatype Settlement = Success | Interrupted(reason: StopReason) | OtherError

  datatype Stats = Stats(
    queued: nat, running: nat, peakQueued: nat, peakRunning: nat,
    admitted: nat, rejected: nat, started: nat, completed: nat,
    succeeded: nat, failed: nat, cancelled: nat, expired: nat)

  const NO_STATS: Stats := Stats(0, 0, 0, 0, 0, 0, 0, 0, 0, 0, 0, 0)

  /** Tasks are numbered in admission order. `reasons` are the cancellation states shared with the
      callers, `promises` what each task was settled with. `reached` and `removed` record which tasks
      passed the check before the store and which were taken out of the queue unrun. */
  datatype Shared = Shared(
    queue: seq<nat>,
    active: seq<Option<nat>>,
    stopping: bool,
    stats: Stats,
    reasons: seq<StopReason>,
    deadlines: seq<bool>,
    promises: seq<Option<Settlement>>,
    dispatched: seq<nat>,
    reached: set<nat>,
    removed: set<nat>)

  function Initial(workers: nat): Shared {
    Shared([], seq(workers, _ => None), false, NO_STATS, [], [], [], [], {}, {})
  }

  /** A task and the arrays it indexes. */
  predicate Known(s: Shared, t: nat) {
    t < |s.reasons| == |s.deadlines| == |s.promises|
  }

  /** `submit` */
  function Submit(c: ExecutorConfig, s: Shared, hasDeadline: bool): Shared {
    if s.stopping || |s.queue| >= c.queueCapacity then
      s.(stats := s.stats.(rejected := s.stats.rejected + 1))
    else
      var queued := |s.queue| + 1;
      s.(queue := s.queue + [s.stats.admitted],
         reasons := s.reasons + [NoReason],
         deadlines := s.deadlines + [hasDeadline],
         promises := s.promises + [None],
         stats := s.stats.(admitted := s.stats.admitted + 1, queued := queued,
                           peakQueued := Most(s.stats.peakQueued, queued)))
  }

  function Counted(st: Stats, outcome: Settlement): Stats {
    var done := st.(completed := st.completed + 1);
    match outcome
    case Success => done.(succeeded := st.succeeded + 1)
    case Interrupted(reason) =>
      if reason == DeadlineExceeded then done.(expired := st.expired + 1) else done.(cancelled := st.cancelled + 1)
    case OtherError => done.(failed := st.failed + 1)
  }

  /** `finish_locked` */
  function Settle(s: Shared, t: nat, outcome: Settlement): Shared
    requires Known(s, t)
  {
    s.(promises := s.promises[t := Some(outcome)], stats := Counted(s.stats, outcome))
  }

  /** `cancel_waiting_locked` settles with what the context check throws, and with an empty success if
      it throws nothing. */
  function WaitingOutcome(s: Shared, t: nat, expired: bool): Settlement
    requires Known(s, t)
  {
    match StopFor(s.reasons[t], s.deadlines[t], expired)
    case Some(reason) => Interrupted(reason)
    case None => Success
  }

  /** The atomic half of `cancel`, and of `stop` for one task. */
  function Request(s: Shared, t: nat, reason: StopReason): Shared
    requires Known(s, t)
  {
    s.(reasons := s.reasons[t := Requested(s.reasons[t], reason)])
  }

  function IndexOf(queue: seq<nat>, t: nat): (i: nat)
    ensures i <= |queue| && (i < |queue| ==> queue[i] == t)
    ensures i == |queue| <==> t !in queue
    ensures t !in queue[..i]
  {
    if queue == [] || queue[0] == t then 0 else
      var rest := IndexOf(queue[1..], t);
      assert queue == [queue[0]] + queue[1..];
      assert queue[..rest + 1] == [queue[0]] + queue[1..][..rest];
      1 + rest
  }

  /** Take a waiting task out of the queue and settle it. */
  function SettleWaiting(s: Shared, i: nat, expired: bool): Shared
    requires i < |s.queue| && Known(s, s.queue[i])
  {
    var t := s.queue[i];
    var taken := s.(queue := s.queue[..i] + s.queue[i + 1..], removed := s.removed + {t},
                    stats := s.stats.(queued := |s.queue| - 1));
    Settle(taken, t, WaitingOutcome(taken, t, expired))
  }

  /** The locked half of `cancel`: settle the task at once if it is still waiting. */
  function RemoveWaiting(s: Shared, t: nat, expired: bool): Shared
    requires Known(s, t)
  {
    var i := IndexOf(s.queue, t);
    if i == |s.queue| then s else SettleWaiting(s, i, expired)
  }

  ghost predicate AllKnown(s: Shared, tasks: seq<nat>) {
    forall i :: 0 <= i < |tasks| ==> Known(s, tasks[i])
  }

  ghost predicate ActiveKnown(s: Shared) {
    forall w :: 0 <= w < |s.active| && s.active[w].Some? ==> Known(s, s.active[w].value)
  }

  /** The loop of `stop` over running tasks. */
  function StopActive(s: Shared, w: nat): (r: Shared)
    requires w <= |s.active| && ActiveKnown(s)
    ensures r == s.(reasons := r.reasons) && |r.reasons| == |s.reasons|
    decreases |s.active| - w
  {
    if w == |s.active| then s
    else if s.active[w].Some? then
      var next := Request(s, s.active[w].value, Shutdown);
      assert ActiveKnown(next) by {
        forall v | 0 <= v < |next.active| && next.active[v].Some? ensures Known(next, next.active[v].value) {
          assert Known(s, s.active[v].value);
        }
      }
      StopActive(next, w + 1)
    else StopActive(s, w + 1)
  }

  /** The loop of `stop` that empties the queue. */
  function Drain(s: Shared, expired: bool): (r: Shared)
    requires AllKnown(s, s.queue)
    ensures r.queue == []
    decreases |s.queue|
  {
    if s.queue == [] then s else
      var next := DrainOne(s, expired);
      assert AllKnown(next, next.queue) by {
        forall i | 0 <= i < |next.queue| ensures Known(next, next.queue[i]) {
          assert Known(s, s.queue[i + 1]);
        }
      }
      Drain(next, expired)
  }

  function DrainOne(s: Shared, expired: bool): (r: Shared)
    requires s.queue != [] && Known(s, s.queue[0])
    ensures r.queue == s.queue[1..] && |r.reasons| == |s.reasons| && |r.deadlines| == |s.deadlines|
    ensures |r.promises| == |s.promises|
  {
    var t := s.queue[0];
    var taken := Request(s.(queue := s.queue[1..], removed := s.removed + {t},
                            stats := s.stats.(queued := |s.queue| - 1)), t, Shutdown);
    Settle(taken, t, WaitingOutcome(taken, t, expired))
  }

  ghost predicate CanStop(s: Shared) {
    AllKnown(s, s.queue) && ActiveKnown(s)
  }

  /** `stop` */
  function Stop(s: Shared, expired: bool): Shared
    requires CanStop(s)
  {
    if s.stopping then s else
      var signalled := StopActive(s.(stopping := true), 0);
      assert AllKnown(signalled, signalled.queue) by {
        forall i | 0 <= i < |signalled.queue| ensures Known(signalled, signalled.queue[i]) {
          assert Known(s, s.queue[i]);
        }
      }
      Drain(signalled, expired)
  }

  datatype Dispatch = Wait | Exit | Take(task: nat)

  /** What a worker finds when it holds the lock in its waiting loop. */
  function NextDispatch(s: Shared): Dispatch {
    if s.queue != [] then Take(s.queue[0]) else if s.stopping then Exit else Wait
  }

  /** A worker takes the task at the front. */
  function Dequeue(s: Shared, w: nat): Shared
    requires s.queue != [] && w < |s.active|
  {
    var running := s.stats.running + 1;
    s.(queue := s.queue[1..],
       active := s.active[w := Some(s.queue[0])],
       dispatched := s.dispatched + [s.queue[0]],
       stats := s.stats.(queued := |s.queue| - 1, running := running,
                         peakRunning := Most(s.stats.peakRunning, running)))
  }

  /** The short section that counts a task as started. */
  function CountStart(s: Shared, t: nat): Shared {
    s.(stats := s.stats.(started := s.stats.started + 1), reached := s.reached + {t})
  }

  /** A worker's last section for a task. */
  function Complete(s: Shared, w: nat, t: nat, outcome: Settlement): Shared
    requires w < |s.active| && Known(s, t) && s.stats.running > 0
  {
    Settle(s.(active := s.active[w := None], stats := s.stats.(running := s.stats.running - 1)), t, outcome)
  }
}
