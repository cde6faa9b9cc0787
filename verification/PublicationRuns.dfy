/** All interleavings of a managed publication: any number of `complete` calls whose loading runs
    between two critical sections, with `begin`, `fail`, `rejected` and `activate` in between. */
module PublicationRuns {
  import opened Wrappers
  import opened Configuration
  import opened VectorStoreModel
  import opened PublicationSteps

  datatype Attempt = Attempt(generation: nat, manifest: Manifest)

  /** A `complete` call past its first critical section. */
  datatype Call = Loading(token: nat, attempt: Attempt)
                | Loaded(token: nat, attempt: Attempt, index: Index)
                | Waiting(token: nat, attempt: Attempt, prepared: Snapshot)

  /** `accepted` and `served` record history: every admitted attempt, every snapshot ever served. */
  datatype System = System(
    publication: PublicationState,
    serving: Snapshot,
    calls: map<nat, Call>,
    accepted: seq<Attempt>,
    served: seq<Snapshot>)

  datatype Action =
    | BeginPreparation(manifest: Manifest, generation: nat)
    | StartComplete(call: nat, token: nat)
    | LoadSucceeds(call: nat, index: Index)
    | AskStore(call: nat)
    | FinishComplete(call: nat)
    | Abandon(call: nat)
    | FailPreparation(token: nat)
    | RejectRequest(manifest: Manifest, generation: nat)
    | RequestActivation(snapshotId: string, generation: nat)
    | ReplaceAnonymously(index: Index)

  function Start(serving: Snapshot): System {
    System(Initial(serving.identity.generation), serving, map[], [], [serving])
  }

  /** One atomic step. An action that is not enabled changes nothing. */
  function Step(c: PublicationConfig, s: System, a: Action): System {
    match a
    case BeginPreparation(m, g) =>
      var (p, r) := Begin(c, s.publication, s.serving, m, g);
      s.(publication := p, accepted := if r.Token? then s.accepted + [Attempt(g, m)] else s.accepted)
    case StartComplete(call, token) =>
      if call !in s.calls && IsCurrent(s.publication, token)
      then s.(calls := s.calls[call := Loading(token, Attempt(s.publication.generation, s.publication.manifest))])
      else s
    case LoadSucceeds(call, index) =>
      if call in s.calls && s.calls[call].Loading? && LoadedFor(s.calls[call].attempt.manifest, index)
      then s.(calls := s.calls[call := Loaded(s.calls[call].token, s.calls[call].attempt, index)])
      else s
    case AskStore(call) =>
      if call in s.calls && s.calls[call].Loaded? then
        var Loaded(token, attempt, index) := s.calls[call];
        match Prepared(s.serving, index, IdentityOf(attempt.manifest, attempt.generation))
        case Ok(prepared) => s.(calls := s.calls[call := Waiting(token, attempt, prepared)])
        case Err(_) => s.(calls := s.calls - {call})
      else s
    case FinishComplete(call) =>
      if call in s.calls && s.calls[call].Waiting? then
        var Waiting(token, attempt, prepared) := s.calls[call];
        var (p, _) := Finish(s.publication, token, attempt.manifest, attempt.generation, prepared);
        s.(publication := p, calls := s.calls - {call})
      else s
    case Abandon(call) => s.(calls := s.calls - {call})
    case FailPreparation(token) => s.(publication := Fail(s.publication, token))
    case RejectRequest(m, g) => s.(publication := Reject(s.publication, m, g))
    case RequestActivation(id, g) =>
      var (p, serving, _) := Activate(c, s.publication, s.serving, id, g);
      s.(publication := p, serving := serving,
         served := if serving != s.serving then s.served + [serving] else s.served)
    case ReplaceAnonymously(index) =>
      match Published(Some(s.serving), index, NO_IDENTITY)
      case Ok(next) => s.(serving := next, served := s.served + [next])
      case Err(_) => s
  }

  function Run(c: PublicationConfig, s: System, actions: seq<Action>): System
    decreases |actions|
  {
    if actions == [] then s else Run(c, Step(c, s, actions[0]), actions[1..])
  }

  // ---------- Invariant ----------

  /** A managed start: publication enabled, the served snapshot has an identity. */
  predicate ManagedStart(c: PublicationConfig, serving: Snapshot) {
    c.enabled && serving.identity.generation > 0 && 0 < serving.version <= UINT64_MAX
  }

  /** Attempts are fenced: generations never decrease and a repeated one keeps its manifest. */
  predicate Fenced(accepted: seq<Attempt>) {
    forall i, j :: 0 <= i < j < |accepted| ==>
      && accepted[i].generation <= accepted[j].generation
      && (accepted[i].generation == accepted[j].generation ==> accepted[i] == accepted[j])
  }

  /** Served snapshots are numbered consecutively and their generations strictly increase. */
  predicate Progresses(served: seq<Snapshot>) {
    forall i, j :: 0 <= i < j < |served| ==>
      && served[j].version == served[i].version + (j - i)
      && served[i].identity.generation < served[j].identity.generation
  }

  /** The attempt under way, or the last one, is the last admitted one. */
  predicate TokensOk(c: PublicationConfig, p: PublicationState, accepted: seq<Attempt>) {
    && p.token == |accepted| <= UINT64_MAX
    && (accepted != [] ==>
          && accepted[|accepted| - 1] == Attempt(p.generation, p.manifest)
          && p.highestGeneration == p.generation)
    && (forall i :: 0 <= i < |accepted| ==> ValidManifest(accepted[i].manifest, c))
  }

  /** A snapshot built for an attempt. */
  predicate BuiltFor(attempt: Attempt, snapshot: Snapshot) {
    && LoadedFor(attempt.manifest, snapshot.index)
    && snapshot.identity == IdentityOf(attempt.manifest, attempt.generation)
  }

  predicate SlotOk(p: PublicationState, serving: Snapshot, accepted: seq<Attempt>) {
    && serving.identity.generation <= p.highestGeneration
    && (accepted == [] ==> p.highestGeneration == serving.identity.generation)
    && (p.phase == Preparing || p.phase == ReadyToActivate ==>
          && accepted != []
          && serving.identity.generation < p.highestGeneration == p.generation)
    && (p.candidate.Some? <==> p.phase == ReadyToActivate)
    && (p.candidate.Some? ==>
          && BuiltFor(Attempt(p.generation, p.manifest), p.candidate.value)
          && p.candidate.value.version == serving.version + 1 <= UINT64_MAX)
  }

  predicate CallOk(p: PublicationState, serving: Snapshot, accepted: seq<Attempt>, call: Call) {
    && 0 < call.token <= |accepted|
    && accepted[call.token - 1] == call.attempt
    && (call.Loaded? ==> LoadedFor(call.attempt.manifest, call.index))
    && (call.Waiting? ==>
          && BuiltFor(call.attempt, call.prepared)
          && (IsCurrent(p, call.token) ==> call.prepared.version == serving.version + 1 <= UINT64_MAX))
  }

  ghost predicate Inv(c: PublicationConfig, s: System) {
    && c.enabled
    && s.serving.identity.generation > 0 && s.serving.version <= UINT64_MAX
    && s.served != [] && s.served[|s.served| - 1] == s.serving
    && Progresses(s.served)
    && Fenced(s.accepted)
    && TokensOk(c, s.publication, s.accepted)
    && SlotOk(s.publication, s.serving, s.accepted)
    && forall id :: id in s.calls ==> CallOk(s.publication, s.serving, s.accepted, s.calls[id])
  }

  lemma StartIsSafe(c: PublicationConfig, serving: Snapshot)
    requires ManagedStart(c, serving)
    ensures Inv(c, Start(serving))
  {
  }

  lemma BeginIsSafe(c: PublicationConfig, s: System, m: Manifest, g: nat)
    requires Inv(c, s)
    ensures Inv(c, Step(c, s, BeginPreparation(m, g)))
  {
    var t := Step(c, s, BeginPreparation(m, g));
    if t.accepted != s.accepted {
      assert t.accepted == s.accepted + [Attempt(g, m)];
      FenceGrows(s.accepted, Attempt(g, m));
      forall id | id in t.calls ensures CallOk(t.publication, t.serving, t.accepted, t.calls[id]) {
        assert CallOk(s.publication, s.serving, s.accepted, s.calls[id]);
      }
    }
  }

  lemma FenceGrows(accepted: seq<Attempt>, next: Attempt)
    requires Fenced(accepted)
    requires accepted != [] ==> var last := accepted[|accepted| - 1];
      last.generation < next.generation || last == next
    ensures Fenced(accepted + [next])
  {
  }

  lemma AskStoreIsSafe(c: PublicationConfig, s: System, id: nat)
    requires Inv(c, s)
    ensures Inv(c, Step(c, s, AskStore(id)))
  {
    if id in s.calls {
      assert CallOk(s.publication, s.serving, s.accepted, s.calls[id]);
    }
  }

  lemma FinishIsSafe(c: PublicationConfig, s: System, id: nat)
    requires Inv(c, s)
    ensures Inv(c, Step(c, s, FinishComplete(id)))
  {
  }

  /** An activation that takes effect ends the phase in which prepared versions mattered. */
  lemma ActivationIsSafe(c: PublicationConfig, s: System, id: string, g: nat)
    requires Inv(c, s)
    ensures Inv(c, Step(c, s, RequestActivation(id, g)))
  {
    hide ValidManifest, LoadedFor, Progresses, Fenced, CanonicalId;
    var t := Step(c, s, RequestActivation(id, g));
    if t.serving != s.serving {
      ServedGrows(s.served, t.serving);
    }
    forall call | call in t.calls ensures CallOk(t.publication, t.serving, t.accepted, t.calls[call]) {
      assert CallOk(s.publication, s.serving, s.accepted, s.calls[call]);
    }
  }

  lemma ServedGrows(served: seq<Snapshot>, next: Snapshot)
    requires Progresses(served) && served != []
    requires next.version == served[|served| - 1].version + 1
    requires served[|served| - 1].identity.generation < next.identity.generation
    ensures Progresses(served + [next])
  {
  }

  /** Steps that concern only the calls themselves. */
  lemma CallIsSafe(c: PublicationConfig, s: System, a: Action)
    requires Inv(c, s) && (a.StartComplete? || a.LoadSucceeds? || a.Abandon?)
    ensures Inv(c, Step(c, s, a))
  {
    hide ValidManifest, LoadedFor, Progresses, Fenced, BuiltFor;
  }

  lemma StatusIsSafe(c: PublicationConfig, s: System, a: Action)
    requires Inv(c, s) && (a.FailPreparation? || a.RejectRequest? || a.ReplaceAnonymously?)
    ensures Inv(c, Step(c, s, a))
  {
    hide ValidManifest, LoadedFor, Progresses, Fenced, BuiltFor;
  }

  lemma StepIsSafe(c: PublicationConfig, s: System, a: Action)
    requires Inv(c, s)
    ensures Inv(c, Step(c, s, a))
  {
    hide Inv, Step;
    match a
    case BeginPreparation(m, g) => BeginIsSafe(c, s, m, g);
    case AskStore(id) => AskStoreIsSafe(c, s, id);
    case FinishComplete(id) => FinishIsSafe(c, s, id);
    case RequestActivation(id, g) => ActivationIsSafe(c, s, id, g);
    case FailPreparation(_) => StatusIsSafe(c, s, a);
    case RejectRequest(_, _) => StatusIsSafe(c, s, a);
    case ReplaceAnonymously(_) => StatusIsSafe(c, s, a);
    case _ => CallIsSafe(c, s, a);
  }

  /** The invariant holds in every state of every run from a managed start. */
  lemma {:induction false} RunIsSafe(c: PublicationConfig, s: System, actions: seq<Action>)
    requires Inv(c, s)
    ensures Inv(c, Run(c, s, actions))
    decreases |actions|
  {
    if actions != [] {
      StepIsSafe(c, s, actions[0]);
      RunIsSafe(c, Step(c, s, actions[0]), actions[1..]);
    }
  }

  ghost predicate Reachable(c: PublicationConfig, s: System) {
    exists serving, actions :: ManagedStart(c, serving) && Run(c, Start(serving), actions) == s
  }

  lemma ReachableIsSafe(c: PublicationConfig, s: System)
    requires Reachable(c, s)
    ensures Inv(c, s)
  {
    var serving, actions :| ManagedStart(c, serving) && Run(c, Start(serving), actions) == s;
    StartIsSafe(c, serving);
    RunIsSafe(c, Start(serving), actions);
  }

  // ---------- What follows for every run ----------

  /** Asking to activate the ready candidate succeeds: the store never refuses it, and it becomes
      the served snapshot under the next version number. */
  lemma ReadyCandidateActivates(c: PublicationConfig, s: System, id: string, g: nat)
    requires Reachable(c, s) && IsCandidate(s.publication, id, g)
    ensures var (p, serving, r) := Activate(c, s.publication, s.serving, id, g);
            && r == Finished && p.phase == Serving && p.lastResult == ActivationDone && p.candidate == None
            && serving == s.publication.candidate.value
            && serving.version == s.serving.version + 1
            && serving.identity.generation > s.serving.identity.generation
  {
    ReachableIsSafe(c, s);
  }

  /** A candidate is always the snapshot loaded for the current manifest and generation. */
  lemma CandidateIsCurrent(c: PublicationConfig, s: System)
    requires Reachable(c, s) && s.publication.candidate.Some?
    ensures var p, built := s.publication, s.publication.candidate.value;
            && p.phase == ReadyToActivate
            && s.accepted != [] && s.accepted[|s.accepted| - 1] == Attempt(p.generation, p.manifest)
            && LoadedFor(p.manifest, built.index)
            && built.identity == IdentityOf(p.manifest, p.generation)
            && p.highestGeneration == p.generation > s.serving.identity.generation
  {
    ReachableIsSafe(c, s);
  }

  /** While a preparation or a candidate is outstanding, naming the served snapshot is refused by the
      fence: the already-active shortcut cannot discard the attempt. */
  lemma NoShortcutWhileOutstanding(c: PublicationConfig, s: System, id: string, g: nat)
    requires Reachable(c, s) && (s.publication.phase == Preparing || s.publication.phase == ReadyToActivate)
    requires IsServing(s.serving, id, g)
    ensures var (p, serving, r) := Activate(c, s.publication, s.serving, id, g);
            && r == Refused && serving == s.serving
            && p == RefuseActivation(s.publication, id, g)
  {
    ReachableIsSafe(c, s);
  }

  /** Each generation is admitted with at most one manifest. */
  lemma OneManifestPerGeneration(c: PublicationConfig, s: System, i: nat, j: nat)
    requires Reachable(c, s) && i < |s.accepted| && j < |s.accepted|
    requires s.accepted[i].generation == s.accepted[j].generation
    ensures s.accepted[i].manifest == s.accepted[j].manifest
  {
    ReachableIsSafe(c, s);
    if i < j {
      assert s.accepted[i] == s.accepted[j];
    } else if j < i {
      assert s.accepted[j] == s.accepted[i];
    }
  }

  /** A version number identifies one snapshot, so a query that reports version and identity from the
      snapshot it acquired can never mix two publications. */
  lemma VersionIdentifiesSnapshot(c: PublicationConfig, s: System, i: nat, j: nat)
    requires Reachable(c, s) && i < |s.served| && j < |s.served|
    requires s.served[i].version == s.served[j].version
    ensures s.served[i] == s.served[j]
  {
    ReachableIsSafe(c, s);
  }

  /** One step moves the fence and the served version only forward: the fence only by admission, the
      version by one and only when a ready candidate is activated. */
  lemma StepMovesForward(c: PublicationConfig, s: System, a: Action)
    requires Inv(c, s)
    ensures var t := Step(c, s, a);
            && s.publication.highestGeneration <= t.publication.highestGeneration
            && s.publication.token <= t.publication.token
            && s.accepted <= t.accepted && s.served <= t.served
            && (t.accepted != s.accepted || t.publication.highestGeneration != s.publication.highestGeneration ==>
                  && a.BeginPreparation? && t.accepted == s.accepted + [Attempt(a.generation, a.manifest)]
                  && t.publication.highestGeneration == a.generation)
            && (t.serving != s.serving <==>
                  a.RequestActivation? && IsCandidate(s.publication, a.snapshotId, a.generation))
            && (t.serving != s.serving ==>
                  && t.serving == s.publication.candidate.value
                  && t.serving.version == s.serving.version + 1
                  && s.serving.identity.generation < t.serving.identity.generation)
  {
  }

  lemma {:induction false} RunMovesForward(c: PublicationConfig, s: System, actions: seq<Action>)
    requires Inv(c, s)
    ensures var t := Run(c, s, actions);
            && s.publication.highestGeneration <= t.publication.highestGeneration
            && s.publication.token <= t.publication.token
            && s.accepted <= t.accepted && s.served <= t.served
            && s.serving.version <= t.serving.version
            && s.serving.identity.generation <= t.serving.identity.generation
    decreases |actions|
  {
    if actions != [] {
      StepIsSafe(c, s, actions[0]);
      StepMovesForward(c, s, actions[0]);
      RunMovesForward(c, Step(c, s, actions[0]), actions[1..]);
    }
  }

  /** Once a newer preparation was admitted, however much happened since, neither the completion nor
      the failure of an older attempt changes the publication. */
  lemma LateCompletionIsHarmless(c: PublicationConfig, s: System, m: Manifest, g: nat, actions: seq<Action>,
                                 id: nat, token: nat)
    requires Inv(c, s) && Begin(c, s.publication, s.serving, m, g).1.Token?
    requires token <= s.publication.token
    ensures var t := Run(c, Step(c, s, BeginPreparation(m, g)), actions);
            && (id in t.calls && t.calls[id].token == token ==>
                  Step(c, t, FinishComplete(id)).publication == t.publication)
            && Step(c, t, FailPreparation(token)).publication == t.publication
  {
    StepIsSafe(c, s, BeginPreparation(m, g));
    RunMovesForward(c, Step(c, s, BeginPreparation(m, g)), actions);
  }

  /** Loading, preparing and installing on behalf of the preparation `token`. */
  function Completing(call: nat, token: nat, index: Index): seq<Action> {
    [StartComplete(call, token), LoadSucceeds(call, index), AskStore(call), FinishComplete(call)]
  }

  /** A preparation that is not overtaken ends with a candidate, under the next version, exactly when a version is
      left; the activation that follows serves it. */
  lemma UndisturbedIsPublished(c: PublicationConfig, s: System, call: nat, token: nat, index: Index)
    requires Reachable(c, s) && IsCurrent(s.publication, token) && call !in s.calls
    requires LoadedFor(s.publication.manifest, index)
    ensures var m, g := s.publication.manifest, s.publication.generation;
            var t := Run(c, s, Completing(call, token, index));
            && (t.publication.phase == ReadyToActivate <==> s.serving.version < UINT64_MAX)
            && t.serving == s.serving
            && (t.publication.phase == ReadyToActivate ==>
                  Step(c, t, RequestActivation(m.snapshotId, g)).serving
                  == Snapshot(index, s.serving.version + 1, IdentityOf(m, g)))
  {
    ReachableIsSafe(c, s);
    UndisturbedCompletes(c, s, call, token, index);
  }

  lemma UndisturbedCompletes(c: PublicationConfig, s: System, call: nat, token: nat, index: Index)
    requires Inv(c, s) && IsCurrent(s.publication, token) && call !in s.calls
    requires LoadedFor(s.publication.manifest, index)
    ensures var m, g := s.publication.manifest, s.publication.generation;
            var t := Run(c, s, Completing(call, token, index));
            && (t.publication.phase == ReadyToActivate <==> s.serving.version < UINT64_MAX)
            && t.serving == s.serving
            && (t.publication.phase == ReadyToActivate ==>
                  Step(c, t, RequestActivation(m.snapshotId, g)).serving
                  == Snapshot(index, s.serving.version + 1, IdentityOf(m, g)))
  {
    assert ValidManifest(s.publication.manifest, c);
    hide Run, Inv, AllHex, NextVersion;
    NextVersionFits(s.serving.version);
    RunOfFour(c, s, StartComplete(call, token), LoadSucceeds(call, index), AskStore(call), FinishComplete(call));
  }

  lemma NextVersionFits(version: nat)
    ensures version < UINT64_MAX ==> NextVersion(version) == version + 1
  {
  }

  lemma RunFirst(c: PublicationConfig, s: System, a: Action, rest: seq<Action>)
    ensures Run(c, s, [a] + rest) == Run(c, Step(c, s, a), rest)
  {
    assert ([a] + rest)[1..] == rest;
  }

  lemma RunOfFour(c: PublicationConfig, s: System, a1: Action, a2: Action, a3: Action, a4: Action)
    ensures Run(c, s, [a1, a2, a3, a4]) == Step(c, Step(c, Step(c, Step(c, s, a1), a2), a3), a4)
  {
    hide Step;
    var s1 := Step(c, s, a1);
    var s2 := Step(c, s1, a2);
    var s3 := Step(c, s2, a3);
    RunFirst(c, s, a1, [a2, a3, a4]);
    RunFirst(c, s1, a2, [a3, a4]);
    RunFirst(c, s2, a3, [a4]);
    RunFirst(c, s3, a4, []);
    assert [a1] + [a2, a3, a4] == [a1, a2, a3, a4] && [a2] + [a3, a4] == [a2, a3, a4];
    assert [a3] + [a4] == [a3, a4] && [a4] + [] == [a4];
  }

  // ---------- What is admitted ----------

  /** A valid manifest for a generation newer than what is served, while nothing is being prepared and a token is
      left: newer than every generation admitted so far, or the very attempt that was admitted last. */
  ghost predicate Admissible(c: PublicationConfig, s: System, m: Manifest, g: nat) {
    && ValidManifest(m, c) && s.publication.phase != Preparing && |s.accepted| < UINT64_MAX
    && g > s.serving.identity.generation
    && forall i :: 0 <= i < |s.accepted| ==> s.accepted[i].generation < g || s.accepted[i] == Attempt(g, m)
  }

  /** In every reachable state exactly these are admitted, and an admission opens the next preparation. */
  lemma AdmittedIff(c: PublicationConfig, s: System, m: Manifest, g: nat)
    requires Reachable(c, s)
    ensures var (p, r) := Begin(c, s.publication, s.serving, m, g);
            && (r.Token? <==> Admissible(c, s, m, g))
            && (r.Token? ==>
                  r.token == |s.accepted| + 1 && IsCurrent(p, r.token) && p.manifest == m && p.generation == g)
            && (!r.Token? ==> p == s.publication)
    ensures Step(c, s, BeginPreparation(m, g)).accepted
            == if Admissible(c, s, m, g) then s.accepted + [Attempt(g, m)] else s.accepted
  {
    ReachableIsSafe(c, s);
    AdmissibleIff(c, s, m, g);
  }

  lemma AdmissibleIff(c: PublicationConfig, s: System, m: Manifest, g: nat)
    requires Inv(c, s)
    ensures Begin(c, s.publication, s.serving, m, g).1.Token? <==> Admissible(c, s, m, g)
  {
    hide ValidManifest, LoadedFor, AllHex;
    var n := |s.accepted|;
    if n > 0 {
      LastIsHighest(s.accepted);
      assert s.accepted[n - 1] == Attempt(s.publication.generation, s.publication.manifest);
    }
  }

  lemma LastIsHighest(accepted: seq<Attempt>)
    requires Fenced(accepted) && accepted != []
    ensures forall i :: 0 <= i < |accepted| ==>
      var last := accepted[|accepted| - 1]; accepted[i].generation < last.generation || accepted[i] == last
  {
  }

  /** The attempt admitted last may be tried again once it failed, or as long as its candidate was not activated. */
  lemma RetryIsAdmissible(c: PublicationConfig, s: System)
    requires Reachable(c, s) && s.accepted != [] && |s.accepted| < UINT64_MAX && s.publication.phase != Preparing
    ensures var last := s.accepted[|s.accepted| - 1];
            Admissible(c, s, last.manifest, last.generation) <==> last.generation > s.serving.identity.generation
  {
    ReachableIsSafe(c, s);
    LastIsHighest(s.accepted);
  }

  /** Preparing, loading, installing and activating. */
  function Publishing(call: nat, token: nat, m: Manifest, g: nat, index: Index): seq<Action> {
    [BeginPreparation(m, g)] + Completing(call, token, index) + [RequestActivation(m.snapshotId, g)]
  }

  /** From every reachable state, whatever failed before, an admissible attempt that runs undisturbed is served. */
  lemma AdmissibleIsPublished(c: PublicationConfig, s: System, m: Manifest, g: nat, call: nat, index: Index)
    requires Reachable(c, s) && Admissible(c, s, m, g) && call !in s.calls && LoadedFor(m, index)
    requires s.serving.version < UINT64_MAX
    ensures Run(c, s, Publishing(call, |s.accepted| + 1, m, g, index)).serving
            == Snapshot(index, s.serving.version + 1, IdentityOf(m, g))
  {
    var token := |s.accepted| + 1;
    AdmittedIff(c, s, m, g);
    ReachableIsSafe(c, s);
    StepIsSafe(c, s, BeginPreparation(m, g));
    var t := Step(c, s, BeginPreparation(m, g));
    hide Run, Inv, Reachable, ValidManifest, Admissible;
    UndisturbedCompletes(c, t, call, token, index);
    hide Step;
    var complete, activate := Completing(call, token, index), RequestActivation(m.snapshotId, g);
    assert Publishing(call, token, m, g, index) == [BeginPreparation(m, g)] + (complete + [activate]);
    RunFirst(c, s, BeginPreparation(m, g), complete + [activate]);
    RunLast(c, t, complete, activate);
  }

  lemma {:induction false} RunLast(c: PublicationConfig, s: System, actions: seq<Action>, last: Action)
    ensures Run(c, s, actions + [last]) == Step(c, Run(c, s, actions), last)
    decreases |actions|
  {
    hide Step;
    if actions == [] {
      RunFirst(c, s, last, []);
      assert [last] + [] == actions + [last];
    } else {
      RunLast(c, Step(c, s, actions[0]), actions[1..], last);
      RunFirst(c, s, actions[0], actions[1..] + [last]);
      assert [actions[0]] + (actions[1..] + [last]) == actions + [last];
    }
  }

  /** A preparation in progress ends only by its own completion or failure, and a candidate is lost only to a newer
      admission or to the activation that serves it. */
  lemma OutstandingStays(c: PublicationConfig, s: System, a: Action)
    requires Reachable(c, s)
    ensures var p, q := s.publication, Step(c, s, a).publication;
            && (p.phase == Preparing && !IsCurrent(q, p.token) ==>
                  || a == FailPreparation(p.token)
                  || (a.FinishComplete? && a.call in s.calls && s.calls[a.call].token == p.token))
            && (p.candidate.Some? && q.candidate != p.candidate ==>
                  || (a.BeginPreparation? && Admissible(c, s, a.manifest, a.generation))
                  || (a.RequestActivation? && Step(c, s, a).serving == p.candidate.value))
            && (q.phase == Preparing && !IsCurrent(p, q.token) ==>
                  a.BeginPreparation? && Admissible(c, s, a.manifest, a.generation))
            && (q.candidate.Some? && q.candidate != p.candidate ==> a.FinishComplete?)
  {
    ReachableIsSafe(c, s);
    if a.BeginPreparation? {
      AdmissibleIff(c, s, a.manifest, a.generation);
    }
    hide ValidManifest, LoadedFor, Admissible;
  }

  /** Exactly two things can be activated: the ready candidate, and once more what is served already, unless a newer
      generation was admitted. Only the former changes what is served. */
  lemma ActivatedIff(c: PublicationConfig, s: System, id: string, g: nat)
    requires Reachable(c, s)
    ensures var (p, serving, r) := Activate(c, s.publication, s.serving, id, g);
            && (r == Finished <==>
                  || IsCandidate(s.publication, id, g)
                  || (IsServing(s.serving, id, g)
                      && forall i :: 0 <= i < |s.accepted| ==> s.accepted[i].generation <= g))
            && serving == (if IsCandidate(s.publication, id, g) then s.publication.candidate.value else s.serving)
            && (r == Finished ==> p.phase == Serving && p.candidate == None)
            && (r != Finished ==> p.candidate == s.publication.candidate && p.phase == s.publication.phase)
            && p.token == s.publication.token && p.highestGeneration == s.publication.highestGeneration
  {
    ReachableIsSafe(c, s);
    hide ValidManifest, LoadedFor, AllHex;
    if s.accepted != [] {
      LastIsHighest(s.accepted);
      assert s.accepted[|s.accepted| - 1].generation == s.publication.highestGeneration;
    }
  }

  /** What a rejected request leaves in the status is a canonical ID or none and a short revision or none, and an
      outstanding preparation or candidate does not notice it. */
  lemma RejectionIsBounded(c: PublicationConfig, s: System, m: Manifest, g: nat)
    ensures var p, q := s.publication, Step(c, s, RejectRequest(m, g)).publication;
            && q.lastAttempt.Some? && |q.lastAttempt.value.snapshotId| <= 71 && |q.lastAttempt.value.revision| <= 256
            && (q.lastAttempt.value.snapshotId != "" ==> CanonicalId(q.lastAttempt.value.snapshotId))
            && q.candidate == p.candidate && q.token == p.token && q.highestGeneration == p.highestGeneration
            && q.manifest == p.manifest && q.generation == p.generation && q.announced == p.announced
            && (p.phase == Preparing || p.phase == ReadyToActivate ==> q.phase == p.phase)
            && (p.phase == Serving || p.phase == Failed ==> q.phase == Failed)
  {
  }

  /** The failure of the current preparation ends it, and nothing that is served changes. */
  lemma FailureEnds(c: PublicationConfig, s: System)
    requires Reachable(c, s) && s.publication.phase == Preparing
    ensures var p, t := s.publication, Step(c, s, FailPreparation(s.publication.token));
            && t.publication.phase == Failed && t.publication.announced == None && t.publication.candidate == None
            && t.publication.lastAttempt == Some(IdentityOf(p.manifest, p.generation))
            && t.serving == s.serving && t.accepted == s.accepted && t.calls == s.calls
            && (|s.accepted| < UINT64_MAX ==> Admissible(c, t, p.manifest, p.generation))
  {
    ReachableIsSafe(c, s);
    LastIsHighest(s.accepted);
  }

  // ---------- Content addresses ----------

  /** Whatever was loaded after startup is served under the hash of its file. */
  ghost predicate Named(served: seq<Snapshot>) {
    forall i :: 0 < i < |served| ==> served[i].identity.snapshotId == "sha256:" + served[i].index.sha256
  }

  lemma {:induction false} RunKeepsNames(c: PublicationConfig, s: System, actions: seq<Action>)
    requires Inv(c, s) && Named(s.served)
    ensures Named(Run(c, s, actions).served)
    decreases |actions|
  {
    if actions != [] {
      StepIsSafe(c, s, actions[0]);
      StepKeepsNames(c, s, actions[0]);
      RunKeepsNames(c, Step(c, s, actions[0]), actions[1..]);
    }
  }

  lemma StepKeepsNames(c: PublicationConfig, s: System, a: Action)
    requires Inv(c, s) && Named(s.served)
    ensures Named(Step(c, s, a).served)
  {
    var t := Step(c, s, a);
    if t.served != s.served {
      StepMovesForward(c, s, a);
      assert ValidManifest(s.publication.manifest, c);
    }
  }

  /** Two queries that insist on the same snapshot ID are answered from files with the same hash, however far
      apart they are, once the snapshot served at startup has been replaced. */
  lemma PinnedQueriesAgree(c: PublicationConfig, s: System, actions: seq<Action>, id: string)
    requires Reachable(c, s) && |s.served| > 1 && id != ""
    requires Acquired(s.serving, id).Ok? && Acquired(Run(c, s, actions).serving, id).Ok?
    ensures var first, second := Acquired(s.serving, id).value, Acquired(Run(c, s, actions).serving, id).value;
            && first.identity.snapshotId == second.identity.snapshotId == id
            && first.index.sha256 == second.index.sha256
  {
    ReachableIsSafe(c, s);
    ReachableIsNamed(c, s);
    RunKeepsNames(c, s, actions);
    RunIsSafe(c, s, actions);
    RunMovesForward(c, s, actions);
    hide Run;
    SameName(s.serving.index.sha256, Run(c, s, actions).serving.index.sha256);
  }

  lemma SameName(a: string, b: string)
    ensures "sha256:" + a == "sha256:" + b ==> a == b
  {
    assert a == ("sha256:" + a)[7..] && b == ("sha256:" + b)[7..];
  }

  lemma ReachableIsNamed(c: PublicationConfig, s: System)
    requires Reachable(c, s)
    ensures Named(s.served)
  {
    var serving, before :| ManagedStart(c, serving) && Run(c, Start(serving), before) == s;
    StartIsSafe(c, serving);
    RunKeepsNames(c, Start(serving), before);
  }
}
