/** The publication object. Each method below is one critical section under its mutex, proved equal to
    a step of the state machine. */
module SnapshotPublicationObject {
  import opened Wrappers
  import opened Configuration
  import opened VectorStoreModel
  import opened PublicationSteps

  class SnapshotPublication {
    const store: VectorStore
    const config: PublicationConfig
    var phase: Phase
    var lastResult: LastResult
    var highestGeneration: nat
    var announced: Option<Identity>
    var lastAttempt: Option<Identity>
    var manifest: Manifest
    var generation: nat
    var token: nat
    var candidate: Option<Snapshot>

    ghost function State(): PublicationState
      reads this
    {
      PublicationState(phase, lastResult, highestGeneration, announced, lastAttempt, manifest, generation, token,
                       candidate)
    }

    /** If publication is enabled, the store is read-only and serves an identified snapshot. */
    ghost predicate Valid()
      reads this, store
    {
      && store.Valid()
      && (config.enabled ==> store.readOnly && store.snapshot.value.identity.generation != 0)
      && (candidate.Some? ==> candidate.value.version <= UINT64_MAX)
    }

    constructor (store: VectorStore, config: PublicationConfig)
      requires store.Valid() && config.maximumFileBytes > 0
      requires config.enabled ==> store.readOnly && store.snapshot.value.identity.generation != 0
      ensures Valid() && this.store == store && this.config == config
      ensures State() == Initial(if store.readOnly then store.snapshot.value.identity.generation else 0)
    {
      this.store, this.config := store, config;
      phase, lastResult := Serving, NoResult;
      highestGeneration := if store.readOnly then store.snapshot.value.identity.generation else 0;
      announced, lastAttempt, manifest, generation, token, candidate := None, None, EMPTY_MANIFEST, 0, 0, None;
    }

    /** Construction throws without a store or a file limit, and, if publication is enabled, unless the store is
        read-only and serves an identified snapshot. */
    static method Create(store: VectorStore?, config: PublicationConfig) returns (r: SnapshotPublication?)
      requires store != null ==> store.Valid()
      ensures r != null <==> store != null && config.maximumFileBytes > 0
                             && (config.enabled ==> store.readOnly && store.snapshot.value.identity.generation != 0)
      ensures r != null ==>
        && fresh(r) && r.Valid() && r.store == store && r.config == config
        && r.State() == Initial(if store.readOnly then store.snapshot.value.identity.generation else 0)
    {
      if store == null || config.maximumFileBytes == 0 || (config.enabled && !store.readOnly) {
        return null;
      }
      if config.enabled {
        var serving := store.ServingSnapshot();
        if serving.value.identity.generation == 0 {
          return null;
        }
      }
      r := new SnapshotPublication(store, config);
    }

    method Begin(m: Manifest, g: nat) returns (r: Outcome)
      requires Valid()
      modifies this
      ensures Valid()
      ensures config.enabled ==>
        (State(), r) == PublicationSteps.Begin(config, old(State()), store.snapshot.value, m, g)
      ensures !config.enabled ==> (State(), r) == (old(State()), Disabled)
      ensures config.enabled ==>
        (r != InvalidManifest <==>
           && m.encodedSize <= 16384 && m.indexType == config.indexType && m.indexType in ["flat", "hnsw"]
           && 0 < m.dimension <= 0xFFFF_FFFF_FFFF_FFFF && m.vectorCount <= 0xFFFF_FFFF_FFFF_FFFF
           && 56 <= m.fileSize <= config.maximumFileBytes && |m.revision| <= 256
           && |m.sha256| == 64 && m.snapshotId == "sha256:" + m.sha256
           && (forall i :: 0 <= i < 64 ==> '0' <= m.sha256[i] <= '9' || 'a' <= m.sha256[i] <= 'f')
           && (m.formatVersion == 1 || (m.indexType == "hnsw" && 2 <= m.formatVersion <= 3)))
    {
      if !config.enabled {
        return Disabled;
      }
      if !ValidManifest(m, config) {
        return InvalidManifest;
      }
      if phase == Preparing {
        return Busy;
      }
      var current := store.snapshot.value;
      if g == 0 || g <= current.identity.generation || g < highestGeneration
         || (g == highestGeneration && m != manifest) {
        return Refused;
      }
      if token == UINT64_MAX {
        return TokensExhausted;
      }
      highestGeneration := g;
      announced := Some(IdentityOf(m, g));
      lastAttempt := announced;
      phase, lastResult := Preparing, PreparationStarted;
      manifest, generation := m, g;
      candidate := None;
      token := token + 1;
      r := Token(token);
    }

    /** First critical section of `complete`: copy the attempt that is to be loaded. */
    method StartComplete(t: nat) returns (r: Option<(Manifest, nat)>)
      requires Valid()
      ensures r == if IsCurrent(State(), t) then Some((manifest, generation)) else None
    {
      if t != token || phase != Preparing {
        return None;
      }
      r := Some((manifest, generation));
    }

    /** Between the two sections: ask the store, which the lock does not protect. */
    method PrepareLoaded(m: Manifest, g: nat, index: Index) returns (r: StoreResult<Snapshot>)
      requires Valid()
      ensures r == if store.readOnly then Prepared(store.snapshot.value, index, IdentityOf(m, g))
                   else Err(ReadOnlyStore)
    {
      r := store.PrepareSnapshot(Some(index), IdentityOf(m, g));
    }

    method FinishComplete(t: nat, m: Manifest, g: nat, prepared: Snapshot) returns (r: Outcome)
      requires Valid() && prepared.version <= UINT64_MAX
      modifies this
      ensures Valid()
      ensures (State(), r) == Finish(old(State()), t, m, g, prepared)
    {
      if t != token || phase != Preparing {
        return Refused;
      }
      candidate := Some(prepared);
      phase, lastResult := ReadyToActivate, PreparationReady;
      lastAttempt := Some(IdentityOf(m, g));
      r := Finished;
    }

    method Fail(t: nat)
      requires Valid()
      modifies this
      ensures Valid() && State() == PublicationSteps.Fail(old(State()), t)
    {
      if t != token || phase != Preparing {
        return;
      }
      candidate := None;
      announced := None;
      phase, lastResult := Failed, PrepareFailed;
      lastAttempt := Some(IdentityOf(manifest, generation));
    }

    method Rejected(m: Manifest, g: nat)
      requires Valid()
      modifies this
      ensures Valid() && State() == Reject(old(State()), m, g)
    {
      lastResult := RequestRejected;
      lastAttempt := Some(Identity(if CanonicalId(m.snapshotId) then m.snapshotId else "", g,
                                   if |m.revision| <= 256 then m.revision else ""));
      if phase == Serving || phase == Failed {
        phase := Failed;
      }
    }

    method Activate(snapshotId: string, g: nat) returns (r: Outcome)
      requires Valid()
      modifies this, store
      ensures Valid()
      ensures config.enabled ==>
        (State(), store.snapshot.value, r)
        == PublicationSteps.Activate(config, old(State()), old(store.snapshot).value, snapshotId, g)
      ensures !config.enabled ==> (State(), store.snapshot, r) == (old(State()), old(store.snapshot), Disabled)
    {
      if !config.enabled {
        return Disabled;
      }
      var current := store.snapshot.value;
      if g < highestGeneration {
        RefuseActivation(snapshotId, g);
        return Refused;
      }
      if IsServing(current, snapshotId, g) {
        phase, lastResult, lastAttempt := Serving, AlreadyActive, Some(current.identity);
        return Finished;
      }
      if phase != ReadyToActivate || candidate.None? || candidate.value.identity.snapshotId != snapshotId
         || candidate.value.identity.generation != g {
        RefuseActivation(snapshotId, g);
        return Refused;
      }
      var activated := store.ActivateSnapshot(candidate);
      if activated.Err? {
        return Refused;
      }
      candidate := None;
      lastAttempt, announced := announced, None;
      phase, lastResult := Serving, ActivationDone;
      r := Finished;
    }

    method RefuseActivation(snapshotId: string, g: nat)
      modifies this`lastResult, this`lastAttempt
      ensures State() == PublicationSteps.RefuseActivation(old(State()), snapshotId, g)
    {
      lastResult := ActivationRejected;
      lastAttempt := Some(Identity(if CanonicalId(snapshotId) then snapshotId else "", g, ""));
    }
  }
}
