/** Cooperative cancellation: the shared stop reason and the periodic checkpoint. */
module SearchContextModel {
  import opened Wrappers
  import opened Numbers

  datatype StopReason = NoReason | Cancelled | DeadlineExceeded | Shutdown

  /** What a request leaves behind: the first reason wins. */
  function Requested(current: StopReason, reason: StopReason): StopReason {
    if current == NoReason then reason else current
  }

  /** What a sequence of requests leaves behind. */
  function RequestedAll(current: StopReason, requests: seq<StopReason>): StopReason
    decreases |requests|
  {
    if requests == [] then current else RequestedAll(Requested(current, requests[0]), requests[1..])
  }

  /** Of all requests, in whatever order the callers got through, the first real one decides, and a later one
      never changes the reason. */
  lemma {:induction false} FirstReasonWins(current: StopReason, requests: seq<StopReason>)
    ensures var r := RequestedAll(current, requests);
            && (current != NoReason ==> r == current)
            && (current == NoReason ==>
                  || (r == NoReason && forall i :: 0 <= i < |requests| ==> requests[i] == NoReason)
                  || exists i :: 0 <= i < |requests| && requests[i] == r != NoReason
                                 && forall j :: 0 <= j < i ==> requests[j] == NoReason)
    decreases |requests|
  {
    if requests != [] {
      FirstReasonWins(Requested(current, requests[0]), requests[1..]);
      var r, rest := RequestedAll(current, requests), requests[1..];
      if current == NoReason && requests[0] != NoReason {
        assert requests[0] == r;
      } else if current == NoReason && r != NoReason {
        var i :| 0 <= i < |rest| && rest[i] == r && forall j :: 0 <= j < i ==> rest[j] == NoReason;
        assert requests[i + 1] == r;
        forall j | 0 <= j < i + 1 ensures requests[j] == NoReason {
          assert j > 0 ==> rest[j - 1] == NoReason;
        }
      }
    }
  }

  /** `check`: a requested stop comes before an expired deadline. */
  function StopFor(reason: StopReason, hasDeadline: bool, expired: bool): Option<StopReason> {
    if reason != NoReason then Some(reason)
    else if hasDeadline && expired then Some(DeadlineExceeded)
    else None
  }

  class SearchCancellation {
    var reason: StopReason

    constructor ()
      ensures reason == NoReason
    {
      reason := NoReason;
    }

    /** Compare-and-exchange against "no reason". */
    method Request(r: StopReason)
      modifies this
      ensures reason == Requested(old(reason), r)
    {
      if reason == NoReason {
        reason := r;
      }
    }
  }

  /** What a check sees at the time it is made: the shared reason and whether the deadline has passed. */
  datatype Moment = Moment(reason: StopReason, expired: bool)

  /** The budget of one search. Other threads and the clock are an oracle: time goes on with every call, and a check
      that is made at time `t` sees the moment `moments(t)`. */
  class SearchContext {
    const cancellable: bool
    const hasDeadline: bool
    const interval: nat
    const moments: nat -> Moment
    var now: nat
    /** What the first check that found a reason to stop found. */
    ghost var found: Option<StopReason>
    /** The time after the last check that found none. */
    ghost var clear: nat

    constructor (cancellable: bool, hasDeadline: bool, interval: nat, moments: nat -> Moment)
      ensures this.cancellable == cancellable && this.hasDeadline == hasDeadline && this.interval == interval
      ensures this.moments == moments && now == 0 && found == None
    {
      this.cancellable, this.hasDeadline, this.interval, this.moments := cancellable, hasDeadline, interval, moments;
      now, found, clear := 0, None, 0;
    }

    /** A default context: no cancellation, no deadline. */
    constructor Unlimited()
      ensures !Enabled() && Prompt(0)
    {
      cancellable, hasDeadline, interval, moments := false, false, 64, _ => Moment(NoReason, false);
      now, found, clear := 0, None, 0;
    }

    predicate Enabled() {
      cancellable || hasDeadline
    }

    function Sees(m: Moment): Option<StopReason> {
      StopFor(if cancellable then m.reason else NoReason, hasDeadline, m.expired)
    }

    /** What a check at time `t` would find. */
    function At(t: nat): Option<StopReason> {
      Sees(moments(t))
    }

    ghost predicate NeverStops() {
      forall t :: At(t) == None
    }

    /** From time `t` on every check finds a reason to stop. */
    ghost predicate StopsFrom(t: nat) {
      forall u :: u >= t ==> At(u).Some?
    }

    /** No check has found a reason, and the last one was fewer than `interval` calls ago, also when the
        `remaining` calls that do not check have been made. */
    ghost predicate Prompt(remaining: nat)
      reads this
    {
      && found == None && interval > 0
      && (Enabled() ==> 0 < clear <= now && At(clear - 1) == None && now - clear + remaining < interval)
    }

    /** The last call has found a reason, and the check before found none at most `interval` calls ago. */
    ghost predicate Noticed()
      reads this
    {
      && Enabled() && found.Some? && found.value != NoReason
      && 0 < clear < now <= clear + interval && At(clear - 1) == None && At(now - 1) == found
    }

    /** How a scan stands that has either been stopped or has `remaining` calls left before its next check. */
    ghost predicate Stands(stop: Option<StopReason>, remaining: nat)
      reads this
    {
      stop == found && if stop == None then Prompt(remaining) else Noticed()
    }

    /** How a whole search ends that began at time `start`. Its first call is a check, and so is its last; if one of
        them finds a reason, that is the reason the search ends with, at once. Whatever stop is there from some time
        on, the search ends within `interval` calls. */
    ghost predicate Ended(stop: Option<StopReason>, start: nat)
      reads this
    {
      && start < now && stop == found == At(now - 1)
      && (At(start).Some? ==> stop == At(start) && now == start + 1)
      && forall t :: StopsFrom(t) ==> now <= Most(t, start) + interval
    }

    method Check() returns (stop: Option<StopReason>)
      requires found == None
      modifies this
      ensures now == old(now) + 1 && stop == found == At(old(now))
      ensures clear == if stop == None then now else old(clear)
      ensures var m := moments(old(now));
              stop == if cancellable && m.reason != NoReason then Some(m.reason)
                      else if hasDeadline && m.expired then Some(DeadlineExceeded) else None
      ensures stop.Some? ==> Enabled() && stop.value != NoReason
    {
      stop := Sees(moments(now));
      now := now + 1;
      found := stop;
      if stop == None {
        clear := now;
      }
    }

    /** Called for each item; checks only if none remain. */
    method Checkpoint(remaining: nat) returns (stop: Option<StopReason>, left: nat)
      requires Prompt(remaining)
      modifies this
      ensures now == old(now) + 1 && Stands(stop, left)
      ensures left == Countdown(Enabled(), interval, remaining).1
      ensures stop == if Countdown(Enabled(), interval, remaining).0 then At(old(now)) else None
    {
      stop, left := None, remaining;
      if !Enabled() {
        now := now + 1;
        return;
      }
      if left == 0 {
        stop := Check();
        left := interval;
      } else {
        now := now + 1;
      }
      left := left - 1;
    }
  }

  /** A search whose first check found nothing ends as it should if its last call checked, or if it was stopped
      while scanning. */
  lemma EndsInTime(context: SearchContext, stop: Option<StopReason>, start: nat)
    requires start < context.now && context.interval > 0 && stop == context.found == context.At(context.now - 1)
    requires context.At(start) == None || context.now == start + 1
    requires stop == None || context.now == start + 1 || context.Noticed()
    ensures context.Ended(stop, start)
  {
    forall t | context.StopsFrom(t) ensures context.now <= Most(t, start) + context.interval {
      assert context.Noticed() ==> context.clear - 1 < t;
      assert stop == None ==> context.now - 1 < t;
    }
  }

  /** `checkpoint`: whether this item checks, and the items left before the next check. */
  function Countdown(enabled: bool, interval: nat, remaining: nat): (bool, nat)
    requires interval > 0
  {
    if !enabled then (false, remaining)
    else if remaining == 0 then (true, interval - 1)
    else (false, remaining - 1)
  }

  /** The items left before the next check after `i` items. */
  function RemainingAfter(enabled: bool, interval: nat, i: nat): nat
    requires interval > 0
  {
    if i == 0 then 0 else Countdown(enabled, interval, RemainingAfter(enabled, interval, i - 1)).1
  }

  /** Whether item `i` of a scan checks. */
  predicate ChecksAt(enabled: bool, interval: nat, i: nat)
    requires interval > 0
  {
    Countdown(enabled, interval, RemainingAfter(enabled, interval, i)).0
  }

  lemma ScanBegins(enabled: bool, interval: nat)
    requires interval > 0
    ensures RemainingAfter(enabled, interval, 0) == 0
  {
  }

  lemma ScanGoesOn(enabled: bool, interval: nat, i: nat)
    requires interval > 0
    ensures var (checks, left) := Countdown(enabled, interval, RemainingAfter(enabled, interval, i));
            ChecksAt(enabled, interval, i) == checks && RemainingAfter(enabled, interval, i + 1) == left
  {
  }

  /** From any item on, the next check comes after exactly the remaining items, which are fewer than
      the interval: a stop request is noticed within `interval` items. */
  lemma {:induction false} NextCheck(interval: nat, i: nat, j: nat)
    requires interval > 0
    ensures RemainingAfter(true, interval, i) < interval
    ensures j <= RemainingAfter(true, interval, i) ==>
      (ChecksAt(true, interval, i + j) <==> j == RemainingAfter(true, interval, i))
    decreases i + j, j
  {
    if i > 0 {
      NextCheck(interval, i - 1, 0);
    }
    if 0 < j <= RemainingAfter(true, interval, i) {
      RemainingCountsDown(interval, i, j);
    }
  }

  lemma {:induction false} RemainingCountsDown(interval: nat, i: nat, j: nat)
    requires interval > 0 && j <= RemainingAfter(true, interval, i)
    ensures RemainingAfter(true, interval, i + j) == RemainingAfter(true, interval, i) - j
  {
    if j > 0 {
      RemainingCountsDown(interval, i, j - 1);
    }
  }

  /** A context without deadline or cancellation never checks. */
  lemma {:induction false} DisabledNeverChecks(interval: nat, i: nat)
    requires interval > 0
    ensures RemainingAfter(false, interval, i) == 0 && !ChecksAt(false, interval, i)
  {
    if i > 0 {
      DisabledNeverChecks(interval, i - 1);
    }
  }
}
