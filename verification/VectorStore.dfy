/** Snapshot publication in a read-only vector store: one current snapshot, replaced as a whole. */
module VectorStoreModel {
  import opened Wrappers
  import opened Configuration

  datatype Identity = Identity(snapshotId: string, generation: nat, revision: string)

  const NO_IDENTITY: Identity := Identity("", 0, "")
  const IDENTITY_LIMIT: nat := 256

  /** A loaded index, as far as publication can tell one from another. */
  datatype Index = Index(sha256: string, dimension: nat, count: nat)

  /** The immutable unit that a query acquires. */
  datatype Snapshot = Snapshot(index: Index, version: nat, identity: Identity)

  datatype StoreError = ReadOnlyStore | NothingGiven | NotReadOnly | InvalidIdentity | Mismatch | VersionExhausted

  datatype StoreResult<+T> = Ok(value: T) | Err(error: StoreError)

  /** `prepare_snapshot`: build the next snapshot against the one being served. */
  function Prepared(current: Snapshot, index: Index, identity: Identity): StoreResult<Snapshot> {
    if identity.snapshotId == "" || identity.generation == 0
       || |identity.snapshotId| > IDENTITY_LIMIT || |identity.revision| > IDENTITY_LIMIT then Err(InvalidIdentity)
    else if identity.generation <= current.identity.generation then Err(Mismatch)
    else if current.version == UINT64_MAX then Err(VersionExhausted)
    else Ok(Snapshot(index, current.version + 1, identity))
  }

  /** The next version, as 64-bit unsigned arithmetic has it. */
  function NextVersion(version: nat): nat {
    (version + 1) % (UINT64_MAX + 1)
  }

  /** `activate_snapshot`: what is served afterwards. */
  function Activated(current: Snapshot, next: Snapshot): StoreResult<Snapshot> {
    if next.identity.snapshotId == "" || next.identity.generation == 0 then Err(InvalidIdentity)
    else if next.identity.generation <= current.identity.generation || next.version != NextVersion(current.version)
    then Err(Mismatch)
    else Ok(next)
  }

  /** `publish_snapshot` without an identity, or the first publication. */
  function Published(previous: Option<Snapshot>, index: Index, identity: Identity): StoreResult<Snapshot> {
    if previous.Some? && previous.value.identity.generation != 0 then Err(Mismatch)
    else
      var version := if previous.Some? then previous.value.version else 0;
      if version == UINT64_MAX then Err(VersionExhausted) else Ok(Snapshot(index, version + 1, identity))
  }

  /** What a query gets that may insist on a snapshot ID. */
  function Acquired(current: Snapshot, expectedSnapshotId: string): StoreResult<Snapshot> {
    if expectedSnapshotId != "" && expectedSnapshotId != current.identity.snapshotId then Err(Mismatch)
    else Ok(current)
  }

  /** What is served after a sequence of attempts to activate something, refused or not. */
  function AfterActivations(current: Snapshot, attempts: seq<Snapshot>): Snapshot
    decreases |attempts|
  {
    if attempts == [] then current else
      var r := Activated(current, attempts[0]);
      AfterActivations(if r.Ok? then r.value else current, attempts[1..])
  }

  /** A prepared snapshot can be activated exactly while the version being served is the one it was prepared
      against and its generation is still newer. */
  lemma PreparedActivatesIff(base: Snapshot, current: Snapshot, index: Index, identity: Identity)
    requires Prepared(base, index, identity).Ok? && base.version <= UINT64_MAX && current.version <= UINT64_MAX
    ensures var next := Prepared(base, index, identity).value;
            && Activated(base, next) == Ok(next)
            && (Activated(current, next).Ok? <==>
                  current.version == base.version && current.identity.generation < identity.generation)
  {
  }

  /** An activation raises the version, except that the last one of 64 bits is followed by 0. */
  lemma VersionRisesIff(current: Snapshot, next: Snapshot)
    requires Activated(current, next).Ok? && current.version <= UINT64_MAX
    ensures next.identity.generation > current.identity.generation
    ensures next.version > current.version <==> next.version > 0
    ensures next.version == 0 <==> current.version == UINT64_MAX
  {
  }

  /** A hand-made snapshot of version 0 is accepted after the last version; `prepare_snapshot` makes none. */
  lemma VersionFalls(index: Index)
    ensures var last := Snapshot(index, UINT64_MAX, Identity("a", 1, ""));
            var next := Snapshot(index, 0, Identity("b", 2, ""));
            && Activated(last, next) == Ok(next)
            && (forall identity: Identity :: Prepared(last, index, identity).Err?)
  {
  }

  /** Attempts with a version that `prepare_snapshot` can give. */
  ghost predicate Preparable(attempts: seq<Snapshot>) {
    forall i :: 0 <= i < |attempts| ==> attempts[i].version > 0
  }

  /** Served versions and generations never fall, and nothing changes without raising both. */
  lemma {:induction false} ActivationsMoveForward(current: Snapshot, attempts: seq<Snapshot>)
    requires current.version <= UINT64_MAX && Preparable(attempts)
    ensures var r := AfterActivations(current, attempts);
            && r.version <= UINT64_MAX
            && (r == current || (r.version > current.version && r.identity.generation > current.identity.generation))
    decreases |attempts|
  {
    if attempts != [] {
      var r := Activated(current, attempts[0]);
      ActivationsMoveForward(if r.Ok? then r.value else current, attempts[1..]);
    }
  }

  /** Of all snapshots prepared against the same one at most one is ever served: once any activation took
      effect, the others stay refused whatever is activated later. */
  lemma RivalsAreRefused(base: Snapshot, index: Index, identity: Identity, winner: Snapshot, later: seq<Snapshot>)
    requires Prepared(base, index, identity).Ok? && Activated(base, winner).Ok?
    requires base.version <= UINT64_MAX && Preparable(later)
    ensures Activated(AfterActivations(winner, later), Prepared(base, index, identity).value).Err?
  {
    ActivationsMoveForward(winner, later);
  }

  /** The initial identity has an ID exactly when it has a generation, and bounded strings. */
  predicate ValidInitialIdentity(identity: Identity) {
    && (identity.snapshotId == "" <==> identity.generation == 0)
    && (identity.snapshotId == "" ==> identity.revision == "")
    && |identity.snapshotId| <= IDENTITY_LIMIT && |identity.revision| <= IDENTITY_LIMIT
  }

  class VectorStore {
    const readOnly: bool
    var snapshot: Option<Snapshot>

    /** Exactly the read-only path has a snapshot. */
    ghost predicate Valid()
      reads this
    {
      (readOnly <==> snapshot.Some?) && (snapshot.Some? ==> snapshot.value.version <= UINT64_MAX)
    }

    constructor (index: Index, readOnly: bool, identity: Identity)
      requires ValidInitialIdentity(identity) && (!readOnly ==> identity == NO_IDENTITY)
      ensures Valid() && this.readOnly == readOnly
      ensures readOnly ==> snapshot == Some(Snapshot(index, 1, identity))
    {
      this.readOnly := readOnly;
      snapshot := if readOnly then Some(Snapshot(index, 1, identity)) else None;
    }

    /** Construction throws without an index, for a zero batch limit, for an invalid identity, and for any
        identity on the writable path. */
    static method Create(index: Option<Index>, maximumBatchSize: nat, readOnly: bool, identity: Identity)
      returns (r: VectorStore?)
      ensures r != null <==> index.Some? && maximumBatchSize > 0 && ValidInitialIdentity(identity)
                             && (readOnly || identity == NO_IDENTITY)
      ensures r != null ==> fresh(r) && r.Valid() && r.readOnly == readOnly
                            && (readOnly ==> r.snapshot == Some(Snapshot(index.value, 1, identity)))
    {
      if index.None? || maximumBatchSize == 0 || !ValidInitialIdentity(identity) {
        return null;
      }
      if !readOnly && (identity.snapshotId != "" || identity.generation != 0 || identity.revision != "") {
        return null;
      }
      r := new VectorStore(index.value, readOnly, identity);
    }

    method ServingSnapshot() returns (r: StoreResult<Snapshot>)
      requires Valid()
      ensures r == if readOnly then Ok(snapshot.value) else Err(ReadOnlyStore)
    {
      r := if !readOnly then Err(ReadOnlyStore) else Ok(snapshot.value);
    }

    /** A managed snapshot, one with a generation, can never be replaced anonymously. */
    method ReplaceIndex(index: Option<Index>) returns (r: StoreResult<Snapshot>)
      requires Valid()
      modifies this
      ensures Valid()
      ensures r == if !readOnly then Err(NotReadOnly)
                   else if index.None? then Err(NothingGiven)
                   else Published(old(snapshot), index.value, NO_IDENTITY)
      ensures snapshot == if r.Ok? then Some(r.value) else old(snapshot)
    {
      if !readOnly {
        return Err(NotReadOnly);
      }
      if index.None? {
        return Err(NothingGiven);
      }
      r := Published(snapshot, index.value, NO_IDENTITY);
      if r.Ok? {
        snapshot := Some(r.value);
      }
    }

    method PrepareSnapshot(index: Option<Index>, identity: Identity) returns (r: StoreResult<Snapshot>)
      requires Valid()
      ensures r == if !readOnly then Err(ReadOnlyStore)
                   else if index.None? then Err(NothingGiven)
                   else Prepared(snapshot.value, index.value, identity)
    {
      if !readOnly {
        return Err(ReadOnlyStore);
      }
      if index.None? {
        return Err(NothingGiven);
      }
      r := Prepared(snapshot.value, index.value, identity);
    }

    method ActivateSnapshot(next: Option<Snapshot>) returns (r: StoreResult<Snapshot>)
      requires Valid() && (next.Some? ==> next.value.version <= UINT64_MAX)
      modifies this
      ensures Valid()
      ensures r == if !readOnly then Err(ReadOnlyStore)
                   else if next.None? then Err(NothingGiven)
                   else Activated(old(snapshot).value, next.value)
      ensures snapshot == if r.Ok? then next else old(snapshot)
    {
      if !readOnly {
        return Err(ReadOnlyStore);
      }
      if next.None? {
        return Err(NothingGiven);
      }
      r := Activated(snapshot.value, next.value);
      if r.Ok? {
        snapshot := next;
      }
    }

    /** The guards of `search` on the read-only path: version and identity come from one snapshot. */
    method AcquireForSearch(expectedSnapshotId: string) returns (r: StoreResult<Snapshot>)
      requires Valid() && readOnly
      ensures r == Acquired(snapshot.value, expectedSnapshotId)
    {
      var acquired := snapshot.value;
      if expectedSnapshotId != "" && expectedSnapshotId != acquired.identity.snapshotId {
        return Err(Mismatch);
      }
      r := Ok(acquired);
    }
  }
}
