/** The publication state machine: one preparation slot guarded by tokens and a generation fence. */
module PublicationSteps {
  import opened Wrappers
  import opened Configuration
  import opened VectorStoreModel

  datatype Manifest = Manifest(
    snapshotId: string,
    indexType: string,
    dimension: nat,
    vectorCount: nat,
    fileSize: nat,
    sha256: string,
    revision: string,
    formatVersion: nat,
    encodedSize: nat)

  /** A default-constructed message. */
  const EMPTY_MANIFEST: Manifest := Manifest("", "", 0, 0, 0, "", "", 0, 0)

  datatype PublicationConfig = PublicationConfig(enabled: bool, maximumFileBytes: nat, indexType: string)

  datatype Phase = Serving | Preparing | ReadyToActivate | Failed

  datatype LastResult =
    NoResult | PreparationStarted | PreparationReady | PrepareFailed | RequestRejected | AlreadyActive
    | ActivationDone | ActivationRejected

  datatype PublicationState = PublicationState(
    phase: Phase,
    lastResult: LastResult,
    highestGeneration: nat,
    announced: Option<Identity>,
    lastAttempt: Option<Identity>,
    manifest: Manifest,
    generation: nat,
    token: nat,
    candidate: Option<Snapshot>)

  datatype Outcome = Token(token: nat) | Finished | Disabled | InvalidManifest | Busy | Refused | TokensExhausted

  predicate IsHex(c: char) {
    '0' <= c <= '9' || 'a' <= c <= 'f'
  }

  predicate AllHex(s: string) {
    forall i :: 0 <= i < |s| ==> IsHex(s[i])
  }

  predicate CanonicalId(value: string) {
    |value| == 71 && value[..7] == "sha256:" && AllHex(value[7..])
  }

  /** `validate_manifest` */
  predicate ValidManifest(m: Manifest, c: PublicationConfig) {
    && m.encodedSize <= 16384 && m.indexType == c.indexType
    && (c.indexType == "flat" || c.indexType == "hnsw")
    && 0 < m.dimension <= UINT64_MAX && m.vectorCount <= UINT64_MAX
    && 56 <= m.fileSize <= c.maximumFileBytes
    && |m.sha256| == 64 && m.snapshotId == "sha256:" + m.sha256
    && |m.revision| <= 256 && AllHex(m.sha256)
    && (if c.indexType == "flat" then m.formatVersion == 1 else 1 <= m.formatVersion <= 3)
  }

  function IdentityOf(m: Manifest, generation: nat): Identity {
    Identity(m.snapshotId, generation, m.revision)
  }

  /** What `load_verified_snapshot` promises of an index it returns for a manifest. */
  predicate LoadedFor(m: Manifest, index: Index) {
    index.sha256 == m.sha256 && index.dimension == m.dimension && index.count == m.vectorCount
  }

  /** The state of a publication object for a store that serves this generation. */
  function Initial(generation: nat): PublicationState {
    PublicationState(Serving, NoResult, generation, None, None, EMPTY_MANIFEST, 0, 0, None)
  }

  // ---------- Critical sections ----------

  /** `begin`: admit a preparation, fence off older generations and drop an older candidate. */
  function Begin(c: PublicationConfig, s: PublicationState, serving: Snapshot, m: Manifest, generation: nat)
    : (PublicationState, Outcome)
  {
    if !c.enabled then (s, Disabled)
    else if !ValidManifest(m, c) then (s, InvalidManifest)
    else if s.phase == Preparing then (s, Busy)
    else if generation == 0 || generation <= serving.identity.generation || generation < s.highestGeneration
            || (generation == s.highestGeneration && m != s.manifest) then (s, Refused)
    else if s.token == UINT64_MAX then (s, TokensExhausted)
    else
      (PublicationState(Preparing, PreparationStarted, generation, Some(IdentityOf(m, generation)),
                        Some(IdentityOf(m, generation)), m, generation, s.token + 1, None),
       Token(s.token + 1))
  }

  /** Whether `token` names the preparation in progress. */
  predicate IsCurrent(s: PublicationState, token: nat) {
    token == s.token && s.phase == Preparing
  }

  /** Second critical section of `complete`: install what was loaded. */
  function Finish(s: PublicationState, token: nat, manifest: Manifest, generation: nat, prepared: Snapshot)
    : (PublicationState, Outcome)
  {
    if !IsCurrent(s, token) then (s, Refused)
    else
      (s.(candidate := Some(prepared), phase := ReadyToActivate, lastResult := PreparationReady,
          lastAttempt := Some(IdentityOf(manifest, generation))),
       Finished)
  }

  function Fail(s: PublicationState, token: nat): PublicationState {
    if !IsCurrent(s, token) then s
    else
      s.(candidate := None, announced := None, phase := Failed, lastResult := PrepareFailed,
         lastAttempt := Some(IdentityOf(s.manifest, s.generation)))
  }

  function Reject(s: PublicationState, m: Manifest, generation: nat): PublicationState {
    s.(lastResult := RequestRejected,
       lastAttempt := Some(Identity(if CanonicalId(m.snapshotId) then m.snapshotId else "", generation,
                                    if |m.revision| <= 256 then m.revision else "")),
       phase := if s.phase == Serving || s.phase == Failed then Failed else s.phase)
  }

  function RefuseActivation(s: PublicationState, snapshotId: string, generation: nat): PublicationState {
    s.(lastResult := ActivationRejected,
       lastAttempt := Some(Identity(if CanonicalId(snapshotId) then snapshotId else "", generation, "")))
  }

  predicate IsServing(serving: Snapshot, snapshotId: string, generation: nat) {
    serving.identity.snapshotId == snapshotId && serving.identity.generation == generation
  }

  predicate IsCandidate(s: PublicationState, snapshotId: string, generation: nat) {
    && s.phase == ReadyToActivate && s.candidate.Some?
    && s.candidate.value.identity.snapshotId == snapshotId
    && s.candidate.value.identity.generation == generation
  }

  /** `activate`: the new state, what is served afterwards, and the outcome. An exception from the
      store leaves both as they were. */
  function Activate(c: PublicationConfig, s: PublicationState, serving: Snapshot, snapshotId: string,
                    generation: nat): (PublicationState, Snapshot, Outcome)
  {
    if !c.enabled then (s, serving, Disabled)
    else if generation < s.highestGeneration then (RefuseActivation(s, snapshotId, generation), serving, Refused)
    else if IsServing(serving, snapshotId, generation) then
      (s.(phase := Serving, lastResult := AlreadyActive, lastAttempt := Some(serving.identity)), serving, Finished)
    else if !IsCandidate(s, snapshotId, generation) then
      (RefuseActivation(s, snapshotId, generation), serving, Refused)
    else
      match Activated(serving, s.candidate.value)
      case Err(_) => (s, serving, Refused)
      case Ok(next) =>
        (s.(candidate := None, lastAttempt := s.announced, announced := None, phase := Serving,
            lastResult := ActivationDone),
         next, Finished)
  }
}
