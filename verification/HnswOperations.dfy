/** Deletion, rebuilding and querying on logical states, and what every run of operations keeps. */
module HnswOperations {
  import opened Numbers
  import opened Ranking
  import opened Reachability
  import opened LayerSearch
  import opened Configuration
  import opened GraphLinks
  import opened HnswState

  // ---------- Tombstones ----------

  predicate IsLive(s: State, id: VectorId) {
    id in s.idToNode && s.idToNode[id] < |s.graph| && !s.graph[s.idToNode[id]].deleted
  }

  /** `erase`: only the flag and the counter change. */
  function Erased(s: State, id: VectorId): State {
    if !IsLive(s, id) then s else
      var n := s.idToNode[id];
      s.(graph := s.graph[n := s.graph[n].(deleted := true)], deletedCount := s.deletedCount + 1)
  }

  lemma ErasedLayers(config: Config, g: Graph, n: nat)
    requires GraphOk(config, g) && n < |g|
    ensures GraphOk(config, g[n := g[n].(deleted := true)])
  {
    var h := g[n := g[n].(deleted := true)];
    forall c: nat ensures LayerOk(config, h, c) {
      assert LayerOk(config, g, c);
      assert forall a, d: nat :: Neighbours(h, a, d) == Neighbours(g, a, d);
      assert forall a, b: nat :: Edge(h, c, a, b) <==> Edge(g, c, a, b);
      forall a ensures GoodList(h, c, a) { assert GoodList(g, c, a); }
    }
  }

  /** Deletion keeps the invariant. */
  lemma ErasedIsValid(config: Config, p: Platform, s: State, id: VectorId)
    requires Valid(config, p, s)
    ensures Valid(config, p, Erased(s, id))
  {
    if IsLive(s, id) {
      hide LayerOk;
      var n := s.idToNode[id];
      ErasedLayers(config, s.graph, n);
      ErasedTombstones(s.graph, n);
    }
  }

  lemma ErasedTombstones(g: Graph, n: nat)
    requires n < |g| && !g[n].deleted
    ensures |Tombstones(g[n := g[n].(deleted := true)])| == |Tombstones(g)| + 1
  {
    assert Tombstones(g[n := g[n].(deleted := true)]) == Tombstones(g) + {n};
  }

  /** Deletion takes exactly one ID off the live ones and leaves every adjacency list alone. */
  lemma ErasedIsExact(s: State, id: VectorId)
    requires IdsOk(s.ids, s.idToNode) && |s.ids| == |s.graph|
    ensures forall x :: IsLive(Erased(s, id), x) <==> IsLive(s, x) && x != id
    ensures forall n, c :: Neighbours(Erased(s, id).graph, n, c) == Neighbours(s.graph, n, c)
  {
  }

  /** `size()` counts the nodes that are not tombstones. */
  lemma LiveCount(config: Config, p: Platform, s: State)
    requires Valid(config, p, s)
    ensures |Eligible(s.graph, true)| == |s.ids| - s.deletedCount
  {
    assert Eligible(s.graph, true) == Nodes(|s.graph|) - Tombstones(s.graph);
  }

  // ---------- Live IDs in ascending order ----------

  ghost predicate Ascending(ids: seq<VectorId>) {
    forall i, j :: 0 <= i < j < |ids| ==> ids[i] < ids[j]
  }

  function InsertId(ids: seq<VectorId>, id: VectorId): (r: seq<VectorId>)
    ensures |r| == |ids| + 1
    ensures forall x :: x in r <==> x == id || x in ids
  {
    if ids == [] || id < ids[0] then [id] + ids else [ids[0]] + InsertId(ids[1..], id)
  }

  lemma {:induction false} InsertIdAscends(ids: seq<VectorId>, id: VectorId)
    requires Ascending(ids) && id !in ids
    ensures Ascending(InsertId(ids, id))
  {
    if ids != [] && !(id < ids[0]) {
      InsertIdAscends(ids[1..], id);
      var rest := InsertId(ids[1..], id);
      forall i | 0 <= i < |rest| ensures ids[0] < rest[i] {
        assert rest[i] in rest;
        if rest[i] != id {
          var j :| 0 <= j < |ids[1..]| && ids[1..][j] == rest[i];
          assert ids[0] < ids[j + 1];
        }
      }
    }
  }

  /** The IDs of the live nodes among the first `n`, ascending. */
  function LiveIdsBelow(s: State, n: nat): (r: seq<VectorId>)
    requires n <= |s.ids| == |s.graph|
    ensures forall x :: x in r <==> exists m :: 0 <= m < n && !s.graph[m].deleted && s.ids[m] == x
    ensures Distinct(s.ids) ==> Ascending(r)
  {
    if n == 0 then []
    else if s.graph[n - 1].deleted then LiveIdsBelow(s, n - 1)
    else
      var below := LiveIdsBelow(s, n - 1);
      assert Distinct(s.ids) ==> Ascending(InsertId(below, s.ids[n - 1])) by {
        if Distinct(s.ids) { InsertIdAscends(below, s.ids[n - 1]); }
      }
      InsertId(below, s.ids[n - 1])
  }

  function LiveIds(s: State): seq<VectorId>
    requires |s.ids| == |s.graph|
  {
    LiveIdsBelow(s, |s.ids|)
  }

  lemma LiveIdsAreLive(config: Config, p: Platform, s: State)
    requires Valid(config, p, s)
    ensures Ascending(LiveIds(s))
    ensures forall x :: x in LiveIds(s) <==> IsLive(s, x)
  {
  }

  // ---------- Rebuilding ----------

  function Stored(s: State, id: VectorId): Vector
    requires id in s.idToNode && s.idToNode[id] < |s.vectors|
  {
    s.vectors[s.idToNode[id]]
  }

  /** `all` lists, in ascending order, IDs whose vectors can be copied from `s`. */
  ghost predicate CanCopy(config: Config, p: Platform, s: State, all: seq<VectorId>) {
    && ValidConfig(config) && Ascending(all) && |all| <= UINT32_MAX
    && forall i :: 0 <= i < |all| ==>
         && all[i] in s.idToNode && s.idToNode[all[i]] < |s.vectors|
         && VectorOk(config, p, Stored(s, all[i]))
  }

  /** The state while a rebuild is under way: exactly the first `k` IDs, each with its vector. */
  ghost predicate Copied(config: Config, p: Platform, s: State, all: seq<VectorId>, k: nat, r: State)
    requires CanCopy(config, p, s, all) && k <= |all|
  {
    && Valid(config, p, r)
    && r.ids == all[..k]
    && r.deletedCount == 0
    && forall i :: 0 <= i < k ==> r.vectors[i] == Stored(s, all[i])
  }

  lemma NextIsInsertable(config: Config, p: Platform, s: State, all: seq<VectorId>, k: nat, r: State)
    requires CanCopy(config, p, s, all) && k < |all| && Copied(config, p, s, all, k, r)
    ensures Insertable(config, p, r, all[k], Stored(s, all[k]))
  {
  }

  lemma NextIsCopied(config: Config, p: Platform, s: State, all: seq<VectorId>, k: nat, r: State)
    requires CanCopy(config, p, s, all) && k < |all| && Copied(config, p, s, all, k, r)
    requires Insertable(config, p, r, all[k], Stored(s, all[k]))
    ensures Copied(config, p, s, all, k + 1, Inserted(config, p, r, all[k], Stored(s, all[k])))
  {
    hide Valid, Inserted, Insertable;
    var t := Inserted(config, p, r, all[k], Stored(s, all[k]));
    InsertedIsValid(config, p, r, all[k], Stored(s, all[k]));
    InsertedFields(config, p, r, all[k], Stored(s, all[k]));
    assert all[..k + 1] == all[..k] + [all[k]];
    ValidLengths(config, p, r);
  }

  lemma ValidLengths(config: Config, p: Platform, s: State)
    requires Valid(config, p, s)
    ensures |s.vectors| == |s.ids| == |s.graph|
  {
  }

  /** Insert the vectors of `all` into `r`, in order, from position `k` on. */
  ghost function CopyFrom(config: Config, p: Platform, s: State, all: seq<VectorId>, k: nat, r: State): (t: State)
    requires CanCopy(config, p, s, all) && k <= |all| && Copied(config, p, s, all, k, r)
    ensures Copied(config, p, s, all, |all|, t)
    decreases |all| - k
  {
    hide Copied;
    hide CanCopy;
    if k == |all| then r else CopyFrom(config, p, s, all, k + 1, CopyNext(config, p, s, all, k, r))
  }

  ghost function CopyNext(config: Config, p: Platform, s: State, all: seq<VectorId>, k: nat, r: State): (t: State)
    requires CanCopy(config, p, s, all) && k < |all| && Copied(config, p, s, all, k, r)
    ensures Insertable(config, p, r, all[k], Stored(s, all[k]))
    ensures Copied(config, p, s, all, k + 1, t)
  {
    NextIsInsertable(config, p, s, all, k, r);
    NextIsCopied(config, p, s, all, k, r);
    Inserted(config, p, r, all[k], Stored(s, all[k]))
  }

  lemma CopyFromUnfolds(config: Config, p: Platform, s: State, all: seq<VectorId>, k: nat, r: State)
    requires CanCopy(config, p, s, all) && k <= |all| && Copied(config, p, s, all, k, r)
    ensures k == |all| ==> CopyFrom(config, p, s, all, k, r) == r
    ensures k < |all| ==>
      && Copied(config, p, s, all, k + 1, CopyNext(config, p, s, all, k, r))
      && CopyFrom(config, p, s, all, k, r) == CopyFrom(config, p, s, all, k + 1, CopyNext(config, p, s, all, k, r))
  {
  }

  lemma ReadyToCopy(config: Config, p: Platform, s: State, seed: nat)
    requires Valid(config, p, s) && seed <= UINT64_MAX
    ensures var c := config.(randomSeed := seed);
            CanCopy(c, p, s, LiveIds(s)) && Copied(c, p, s, LiveIds(s), 0, Empty(p.seeded(seed)))
  {
    var c := config.(randomSeed := seed);
    LiveCanBeCopied(config, p, s, seed);
    EmptyIsValid(c, p, p.seeded(seed));
    hide Valid, CanCopy, LiveIds;
    assert LiveIds(s)[..0] == [];
  }

  lemma LiveCanBeCopied(config: Config, p: Platform, s: State, seed: nat)
    requires Valid(config, p, s) && seed <= UINT64_MAX
    ensures CanCopy(config.(randomSeed := seed), p, s, LiveIds(s))
  {
    hide GraphOk, Tombstones, EntryOk, LiveIdsBelow;
    LiveIdsAreLive(config, p, s);
    LiveIdsAtMost(s, |s.ids|);
    var all := LiveIds(s);
    forall i | 0 <= i < |all|
      ensures all[i] in s.idToNode && s.idToNode[all[i]] < |s.vectors| && VectorOk(config, p, Stored(s, all[i]))
    {
      assert all[i] in all && IsLive(s, all[i]);
    }
  }

  lemma {:induction false} LiveIdsAtMost(s: State, n: nat)
    requires n <= |s.ids| == |s.graph|
    ensures |LiveIdsBelow(s, n)| <= n
  {
    if n > 0 { LiveIdsAtMost(s, n - 1); }
  }

  /** `rebuild` */
  ghost function Rebuilt(config: Config, p: Platform, s: State, seed: nat): State
    requires Valid(config, p, s) && seed <= UINT64_MAX
  {
    ReadyToCopy(config, p, s, seed);
    CopyFrom(config.(randomSeed := seed), p, s, LiveIds(s), 0, Empty(p.seeded(seed)))
  }

  /** A rebuilt index satisfies the invariant, has no tombstone, holds exactly the live IDs in
      ascending order, each with its stored vector, and no deleted ID blocks reinsertion. */
  lemma RebuiltIsDense(config: Config, p: Platform, s: State, seed: nat)
    requires Valid(config, p, s) && seed <= UINT64_MAX
    ensures var r := Rebuilt(config, p, s, seed);
            && Valid(config.(randomSeed := seed), p, r)
            && r.deletedCount == 0 && (forall n :: 0 <= n < |r.graph| ==> !r.graph[n].deleted)
            && Ascending(r.ids)
            && (forall id :: id in r.idToNode <==> IsLive(s, id))
            && (forall id :: IsLive(s, id) ==> r.vectors[r.idToNode[id]] == s.vectors[s.idToNode[id]])
  {
    hide Valid, CanCopy, Copied, CopyFrom, LiveIds, Rebuilt, Ascending;
    RebuiltIsCopied(config, p, s, seed);
    LiveIdsAreLive(config, p, s);
    var c, all, r := config.(randomSeed := seed), LiveIds(s), Rebuilt(config, p, s, seed);
    CopiedIsDense(c, p, s, all, r);
    forall id | IsLive(s, id) ensures r.vectors[r.idToNode[id]] == s.vectors[s.idToNode[id]] {
      assert id in all;
    }
  }

  lemma RebuiltIsCopied(config: Config, p: Platform, s: State, seed: nat)
    requires Valid(config, p, s) && seed <= UINT64_MAX
    ensures |s.vectors| == |s.ids| == |s.graph|
    ensures var c, all := config.(randomSeed := seed), LiveIds(s);
            CanCopy(c, p, s, all) && Copied(c, p, s, all, |all|, Rebuilt(config, p, s, seed))
  {
    hide CanCopy, Copied, CopyFrom, LiveIds;
    ReadyToCopy(config, p, s, seed);
  }

  lemma CopiedIsDense(config: Config, p: Platform, s: State, all: seq<VectorId>, r: State)
    requires CanCopy(config, p, s, all) && Copied(config, p, s, all, |all|, r)
    ensures Valid(config, p, r) && r.deletedCount == 0 && r.ids == all
    ensures forall n :: 0 <= n < |r.graph| ==> !r.graph[n].deleted
    ensures forall id :: id in r.idToNode <==> id in all
    ensures forall id :: id in all ==>
      id in s.idToNode && s.idToNode[id] < |s.vectors| && r.idToNode[id] < |r.vectors|
      && r.vectors[r.idToNode[id]] == Stored(s, id)
  {
    hide GraphOk, EntryOk, VectorOk;
    assert r.ids == all;
    assert Tombstones(r.graph) == {};
    forall n | 0 <= n < |r.graph| ensures !r.graph[n].deleted {
      assert n !in Tombstones(r.graph);
    }
    forall id | id in all ensures id in s.idToNode && id in r.idToNode && r.vectors[r.idToNode[id]] == Stored(s, id) {
      var i :| 0 <= i < |all| && all[i] == id;
      assert r.ids[i] == id;
    }
  }

  // ---------- Queries ----------

  datatype SearchOutcome = Found(results: seq<SearchResult>) | InvalidArgument

  /** Where the greedy descent enters layer 0. */
  ghost function BaseEntry(config: Config, p: Platform, s: State, q: Vector): (entry: nat)
    requires Valid(config, p, s) && s.graph != []
    ensures entry < |s.graph|
  {
    IdsAreDistinct(s.ids, s.idToNode);
    Descend(config, ViewOf(p, s.ids, s.vectors, q), s.graph, s.entryPoint, s.maxLevel, 0)
  }

  /** The best live candidates the beam finds for a normalized query. */
  ghost function Beam(config: Config, p: Platform, s: State, q: Vector, ef: nat): (r: seq<nat>)
    requires Valid(config, p, s) && s.graph != [] && ef > 0
    ensures Ordered(ViewOf(p, s.ids, s.vectors, q), r)
  {
    IdsAreDistinct(s.ids, s.idToNode);
    LayerIsClosed(config, s.graph, 0);
    Search(ViewOf(p, s.ids, s.vectors, q), Layer(s.graph, 0), Eligible(s.graph, true),
           BaseEntry(config, p, s, q), ef)
  }

  /** The nodes that the search for an answer looks at on layer 0. */
  ghost function LookedAt(config: Config, p: Platform, s: State, q: Vector, k: nat, ef: nat): set<nat>
    requires Valid(config, p, s) && s.graph != [] && ef > 0
  {
    IdsAreDistinct(s.ids, s.idToNode);
    LayerIsClosed(config, s.graph, 0);
    Visited(ViewOf(p, s.ids, s.vectors, q), Layer(s.graph, 0), Eligible(s.graph, true), BaseEntry(config, p, s, q),
            Most(Least(k, Size(config, p, s)), ef))
  }

  function Results(view: View, nodes: seq<nat>): (r: seq<SearchResult>)
    requires InRange(view, nodes)
    ensures |r| == |nodes| && forall i :: 0 <= i < |r| ==> r[i] == view[nodes[i]]
  {
    seq(|nodes|, i requires 0 <= i < |nodes| => view[nodes[i]])
  }

  /** `size()` */
  ghost function Size(config: Config, p: Platform, s: State): (live: nat)
    requires Valid(config, p, s)
    ensures live == |Eligible(s.graph, true)|
  {
    LiveCount(config, p, s);
    |s.ids| - s.deletedCount
  }

  /** The nodes an answer lists: a prefix of the beam. */
  ghost function Chosen(config: Config, p: Platform, s: State, q: Vector, k: nat, ef: nat): (r: seq<nat>)
    requires Valid(config, p, s) && s.graph != [] && ef > 0
    ensures Ordered(ViewOf(p, s.ids, s.vectors, q), r)
  {
    ValidLengths(config, p, s);
    hide Valid;
    hide Ordered;
    var count := Least(k, Size(config, p, s));
    var found := Beam(config, p, s, q, Most(count, ef));
    OrderedPrefix(ViewOf(p, s.ids, s.vectors, q), found, Least(count, |found|));
    found[..Least(count, |found|)]
  }

  lemma OrderedPrefix(view: View, q: seq<nat>, n: nat)
    requires Ordered(view, q) && n <= |q|
    ensures Ordered(view, q[..n])
  {
  }

  /** `search`, without a deadline or cancellation. */
  ghost function Answer(config: Config, p: Platform, s: State, query: Vector, k: nat, ef: nat): SearchOutcome
    requires Valid(config, p, s)
  {
    if k == 0 then Found([])
    else if |query| != config.dimension || ef == 0 || p.normalize(query).Rejected? then InvalidArgument
    else if Size(config, p, s) == 0 then Found([])
    else
      var q := p.normalize(query).vector;
      Found(Results(ViewOf(p, s.ids, s.vectors, q), Chosen(config, p, s, q, k, ef)))
  }

  /** The live vectors of an index by ID. */
  ghost function LiveContents(s: State): map<VectorId, Vector>
    requires |s.vectors| == |s.graph|
  {
    map id | id in s.idToNode && IsLive(s, id) :: s.vectors[s.idToNode[id]]
  }

  /** What a complete scan of some contents would score. */
  ghost function Entries(p: Platform, contents: map<VectorId, Vector>, q: Vector): set<SearchResult> {
    set id | id in contents :: SearchResult(id, p.similarity(q, contents[id]))
  }

  lemma LiveEntries(config: Config, p: Platform, s: State, q: Vector)
    requires Valid(config, p, s)
    ensures |s.ids| == |s.vectors| == |s.graph|
    ensures Shows(ViewOf(p, s.ids, s.vectors, q), Eligible(s.graph, true), Entries(p, LiveContents(s), q))
  {
    var view := ViewOf(p, s.ids, s.vectors, q);
    var contents, live := LiveContents(s), Eligible(s.graph, true);
    forall n | n in live ensures view[n] in Entries(p, contents, q) {
      assert s.idToNode[s.ids[n]] == n;
      assert s.ids[n] in contents && contents[s.ids[n]] == s.vectors[n];
    }
    forall x | x in Entries(p, contents, q) ensures exists n :: n in live && view[n] == x {
      var n := s.idToNode[x.id];
      assert n in live && view[n] == x;
    }
    IdsAreDistinct(s.ids, s.idToNode);
    ImageSize(view, live, Entries(p, contents, q));
  }

  /** A view maps distinct nodes to distinct results. */
  lemma {:induction false} ImageSize(view: View, nodes: set<nat>, image: set<SearchResult>)
    requires DistinctIds(view) && forall n :: n in nodes ==> n < |view| && view[n] in image
    requires forall x :: x in image ==> exists n :: n in nodes && view[n] == x
    ensures |image| == |nodes|
    decreases nodes
  {
    if nodes == {} {
      assert image == {};
    } else {
      var n :| n in nodes;
      forall x | x in image - {view[n]} ensures exists m :: m in nodes - {n} && view[m] == x {
        var m :| m in nodes && view[m] == x;
        assert m in nodes - {n};
      }
      forall m | m in nodes - {n} ensures view[m] in image - {view[n]} {
        if m < n { assert view[m].id != view[n].id; } else { assert view[n].id != view[m].id; }
      }
      ImageSize(view, nodes - {n}, image - {view[n]});
    }
  }

  /** The live nodes that a query can reach on layer 0. */
  ghost function Reached(config: Config, p: Platform, s: State, q: Vector): set<nat>
    requires Valid(config, p, s) && s.graph != []
  {
    Answerable(Layer(s.graph, 0), Eligible(s.graph, true), BaseEntry(config, p, s, q))
  }

  lemma BeamFacts(config: Config, p: Platform, s: State, q: Vector, ef: nat)
    requires Valid(config, p, s) && s.graph != [] && ef > 0
    ensures var r, reach := Beam(config, p, s, q, ef), Reached(config, p, s, q);
            && Elements(r) <= reach && |r| == Least(ef, |reach|)
            && reach <= Eligible(s.graph, true) && |reach| <= |Eligible(s.graph, true)|
            && Distinct(r) && |Elements(r)| == |r|
  {
    var view := ViewOf(p, s.ids, s.vectors, q);
    IdsAreDistinct(s.ids, s.idToNode);
    LayerIsClosed(config, s.graph, 0);
    SearchCount(view, Layer(s.graph, 0), Eligible(s.graph, true), BaseEntry(config, p, s, q), ef);
    SubsetSize(Reached(config, p, s, q), Eligible(s.graph, true));
    OrderedIsDistinct(view, Beam(config, p, s, q, ef));
    DistinctCount(Beam(config, p, s, q, ef));
  }

  /** A query that gets past the argument checks of an index with live vectors. */
  ghost predicate Queried(config: Config, p: Platform, s: State, query: Vector, k: nat, ef: nat) {
    && Valid(config, p, s) && s.graph != [] && Size(config, p, s) > 0
    && k > 0 && ef > 0 && |query| == config.dimension && p.normalize(query).Unit?
  }

  lemma AnswerShowsChosen(config: Config, p: Platform, s: State, query: Vector, k: nat, ef: nat)
    requires Queried(config, p, s, query, k, ef)
    ensures |s.ids| == |s.vectors| == |s.graph|
    ensures var q := p.normalize(query).vector;
            Answer(config, p, s, query, k, ef)
            == Found(Results(ViewOf(p, s.ids, s.vectors, q), Chosen(config, p, s, q, k, ef)))
  {
  }

  lemma ChosenFacts(config: Config, p: Platform, s: State, q: Vector, k: nat, ef: nat)
    requires Valid(config, p, s) && s.graph != [] && k > 0 && ef > 0
    ensures var r, reach := Chosen(config, p, s, q, k, ef), Reached(config, p, s, q);
            && |r| == Least(k, |reach|) && reach <= Eligible(s.graph, true)
            && |reach| <= |Eligible(s.graph, true)|
            && (forall i :: 0 <= i < |r| ==> r[i] in reach)
  {
    var ef' := Most(Least(k, Size(config, p, s)), ef);
    hide Valid;
    var found := Beam(config, p, s, q, ef');
    BeamFacts(config, p, s, q, ef');
    forall i | 0 <= i < |found| ensures found[i] in Reached(config, p, s, q) {
      assert found[i] in Elements(found);
    }
  }

  /** Every node of `live` that was not chosen ranks below all that were. */
  ghost predicate LeavesOnlyWorse(view: View, live: set<nat>, chosen: seq<nat>) {
    InRange(view, chosen) &&
    forall n, j :: n in live && n < |view| && n !in chosen && 0 <= j < |chosen| ==> Better(view[chosen[j]], view[n])
  }

  lemma PrefixLeavesOnlyWorse(view: View, found: seq<nat>, count: nat)
    requires Ordered(view, found) && count <= |found|
    ensures LeavesOnlyWorse(view, Elements(found), found[..count])
  {
  }

  /** With a wide enough beam a reachable node left out ranks below every node that was chosen. */
  lemma ChosenAreBest(config: Config, p: Platform, s: State, q: Vector, k: nat, ef: nat)
    requires Valid(config, p, s) && s.graph != [] && k > 0 && ef > 0
    requires Most(k, ef) >= |Eligible(s.graph, true)|
    ensures LeavesOnlyWorse(ViewOf(p, s.ids, s.vectors, q), Reached(config, p, s, q), Chosen(config, p, s, q, k, ef))
  {
    ValidLengths(config, p, s);
    hide Valid, LeavesOnlyWorse, Reached, Beam;
    var count := Least(k, Size(config, p, s));
    var found := Beam(config, p, s, q, Most(count, ef));
    BeamFacts(config, p, s, q, Most(count, ef));
    SameSize(Elements(found), Reached(config, p, s, q));
    PrefixLeavesOnlyWorse(ViewOf(p, s.ids, s.vectors, q), found, Least(count, |found|));
  }

  /** `entries` are the results of the nodes in `live`. */
  ghost predicate Shows(view: View, live: set<nat>, entries: set<SearchResult>) {
    && DistinctIds(view)
    && (forall n :: n in live ==> n < |view| && view[n] in entries)
    && (forall x :: x in entries ==> exists n :: n in live && view[n] == x)
    && |entries| == |live|
  }

  lemma ResultsAreSound(view: View, live: set<nat>, entries: set<SearchResult>, chosen: seq<nat>)
    requires Shows(view, live, entries) && Ordered(view, chosen)
    requires forall i :: 0 <= i < |chosen| ==> chosen[i] in live
    ensures forall x :: x in Results(view, chosen) ==> x in entries
    ensures var r := Results(view, chosen); forall i, j :: 0 <= i < j < |r| ==> Better(r[i], r[j])
  {
  }

  lemma ResultsAreTopK(view: View, live: set<nat>, entries: set<SearchResult>, chosen: seq<nat>, k: nat)
    requires Shows(view, live, entries) && Ordered(view, chosen) && |chosen| == Least(k, |live|)
    requires forall i :: 0 <= i < |chosen| ==> chosen[i] in live
    requires LeavesOnlyWorse(view, live, chosen)
    ensures IsTopK(Results(view, chosen), entries, k)
  {
  }

  /** Approximate or not, an answer lists distinct live entries with their true scores, best first;
      its length is exactly what `k` and layer-0 reachability allow, whatever the beam width. */
  lemma AnswerIsSound(config: Config, p: Platform, s: State, query: Vector, k: nat, ef: nat)
    requires Queried(config, p, s, query, k, ef)
    ensures Answer(config, p, s, query, k, ef).Found?
    ensures var q, r := p.normalize(query).vector, Answer(config, p, s, query, k, ef).results;
            && (forall x :: x in r ==> x in Entries(p, LiveContents(s), q))
            && (forall i, j :: 0 <= i < j < |r| ==> Better(r[i], r[j]))
            && |r| == Least(k, |Reached(config, p, s, q)|)
  {
    var q := p.normalize(query).vector;
    hide Valid, Answer, Chosen, Entries, LiveContents, Reached, Shows, Size;
    AnswerShowsChosen(config, p, s, query, k, ef);
    ChosenFacts(config, p, s, q, k, ef);
    LiveEntries(config, p, s, q);
    ResultsAreSound(ViewOf(p, s.ids, s.vectors, q), Eligible(s.graph, true),
                    Entries(p, LiveContents(s), q), Chosen(config, p, s, q, k, ef));
  }

  /** Layer 0 connects every live node to the node where the query enters it. */
  ghost predicate AllReached(config: Config, p: Platform, s: State, query: Vector)
    requires Valid(config, p, s) && s.graph != [] && p.normalize(query).Unit?
  {
    Reached(config, p, s, p.normalize(query).vector) == Eligible(s.graph, true)
  }

  /** The answer is what a complete scan of the live vectors would give. */
  ghost predicate IsExact(config: Config, p: Platform, s: State, query: Vector, k: nat, ef: nat)
    requires Valid(config, p, s) && p.normalize(query).Unit?
  {
    && Answer(config, p, s, query, k, ef).Found?
    && IsTopK(Answer(config, p, s, query, k, ef).results,
              Entries(p, LiveContents(s), p.normalize(query).vector), k)
  }

  /** When every live node is reachable on layer 0 and the effective beam is at least as wide as the
      live count, the answer is the exact top k. */
  lemma AnswerIsExact(config: Config, p: Platform, s: State, query: Vector, k: nat, ef: nat)
    requires Queried(config, p, s, query, k, ef) && AllReached(config, p, s, query)
    requires Most(k, ef) >= |Eligible(s.graph, true)|
    ensures IsExact(config, p, s, query, k, ef)
  {
    var q := p.normalize(query).vector;
    hide Valid, Answer, Chosen, Entries, LiveContents, Reached, Shows, IsTopK, LeavesOnlyWorse, Size;
    AnswerShowsChosen(config, p, s, query, k, ef);
    ChosenFacts(config, p, s, q, k, ef);
    LiveEntries(config, p, s, q);
    ChosenAreBest(config, p, s, q, k, ef);
    ResultsAreTopK(ViewOf(p, s.ids, s.vectors, q), Eligible(s.graph, true), Entries(p, LiveContents(s), q),
                   Chosen(config, p, s, q, k, ef), k);
  }

  lemma SameSize(a: set<nat>, b: set<nat>)
    requires a <= b && |a| >= |b|
    ensures a == b
  {
    assert b == a + (b - a);
    assert |b - a| == 0;
  }

  /** A complete answer shows that every live node is reachable. */
  lemma CompleteMeansReachable(config: Config, p: Platform, s: State, query: Vector, k: nat, ef: nat)
    requires Queried(config, p, s, query, k, ef) && k >= |Eligible(s.graph, true)|
    requires IsExact(config, p, s, query, k, ef)
    ensures AllReached(config, p, s, query)
  {
    var q := p.normalize(query).vector;
    hide Valid, Answer, Chosen, Size, Reached, Entries, LiveContents;
    LiveEntries(config, p, s, q);
    AnswerIsSound(config, p, s, query, k, ef);
    ChosenFacts(config, p, s, q, k, ef);
    SameSize(Reached(config, p, s, q), Eligible(s.graph, true));
  }

  /** Asking for every live vector gives all of them exactly when all are reachable on layer 0. */
  lemma FullAnswerIffReachable(config: Config, p: Platform, s: State, query: Vector, k: nat, ef: nat)
    requires Queried(config, p, s, query, k, ef) && k >= |Eligible(s.graph, true)|
    ensures IsExact(config, p, s, query, k, ef) <==> AllReached(config, p, s, query)
  {
    hide AllReached, IsExact, Valid;
    if AllReached(config, p, s, query) {
      AnswerIsExact(config, p, s, query, k, ef);
    } else if IsExact(config, p, s, query, k, ef) {
      CompleteMeansReachable(config, p, s, query, k, ef);
    }
  }

  // ---------- Runs ----------

  datatype Operation = Add(id: VectorId, vector: Vector) | Erase(id: VectorId) | Rebuild(seed: nat)

  ghost predicate Accepts(config: Config, p: Platform, s: State, id: VectorId, vector: Vector) {
    && |vector| == config.dimension && p.normalize(vector).Unit?
    && Insertable(config, p, s, id, p.normalize(vector).vector)
  }

  /** An operation either takes effect or leaves the state alone. A rebuild replaces the index. */
  ghost function Apply(config: Config, p: Platform, s: State, op: Operation): (Config, State)
    requires Valid(config, p, s)
  {
    match op
    case Add(id, vector) =>
      if Accepts(config, p, s, id, vector)
      then (config, Inserted(config, p, s, id, p.normalize(vector).vector)) else (config, s)
    case Erase(id) => (config, Erased(s, id))
    case Rebuild(seed) =>
      if seed <= UINT64_MAX then (config.(randomSeed := seed), Rebuilt(config, p, s, seed)) else (config, s)
  }

  lemma ApplyIsValid(config: Config, p: Platform, s: State, op: Operation)
    requires Valid(config, p, s)
    ensures var (c, t) := Apply(config, p, s, op); Valid(c, p, t)
  {
    match op
    case Add(id, vector) =>
      if Accepts(config, p, s, id, vector) {
        InsertedIsValid(config, p, s, id, p.normalize(vector).vector);
      }
    case Erase(id) => ErasedIsValid(config, p, s, id);
    case Rebuild(seed) =>
      if seed <= UINT64_MAX { RebuiltIsDense(config, p, s, seed); }
  }

  ghost function Run(config: Config, p: Platform, s: State, ops: seq<Operation>): (Config, State)
    requires Valid(config, p, s)
    decreases |ops|
  {
    if ops == [] then (config, s) else
      ApplyIsValid(config, p, s, ops[0]);
      var (c, t) := Apply(config, p, s, ops[0]);
      Run(c, p, t, ops[1..])
  }

  /** A run that begins with an addition that is accepted. */
  lemma RunAdds(config: Config, p: Platform, s: State, id: VectorId, vector: Vector, rest: seq<Operation>)
    requires Valid(config, p, s) && Accepts(config, p, s, id, vector)
    ensures var r := Inserted(config, p, s, id, p.normalize(vector).vector);
            Valid(config, p, r) && Run(config, p, s, [Add(id, vector)] + rest) == Run(config, p, r, rest)
  {
    InsertedIsValid(config, p, s, id, p.normalize(vector).vector);
    hide Valid, Inserted, Accepts, Run;
    RunFirst(config, p, s, Add(id, vector), rest);
  }

  lemma RunFirst(config: Config, p: Platform, s: State, op: Operation, rest: seq<Operation>)
    requires Valid(config, p, s)
    ensures var (c, t) := Apply(config, p, s, op);
            Valid(c, p, t) && Run(config, p, s, [op] + rest) == Run(c, p, t, rest)
  {
    ApplyIsValid(config, p, s, op);
    hide Valid, Apply;
    assert ([op] + rest)[1..] == rest;
  }

  /** Every index reached from a valid one is valid. */
  lemma {:induction false} RunKeepsInvariant(config: Config, p: Platform, s: State, ops: seq<Operation>)
    requires Valid(config, p, s)
    ensures var (c, t) := Run(config, p, s, ops); Valid(c, p, t)
    decreases |ops|
  {
    if ops != [] {
      ApplyIsValid(config, p, s, ops[0]);
      var (c, t) := Apply(config, p, s, ops[0]);
      RunKeepsInvariant(c, p, t, ops[1..]);
    }
  }

  /** Where a sequence of operations leads from an empty index. */
  ghost function Grown(config: Config, p: Platform, ops: seq<Operation>): (r: (Config, State))
    requires ValidConfig(config)
    ensures Valid(r.0, p, r.1)
  {
    EmptyIsValid(config, p, p.seeded(config.randomSeed));
    RunKeepsInvariant(config, p, Empty(p.seeded(config.randomSeed)), ops);
    Run(config, p, Empty(p.seeded(config.randomSeed)), ops)
  }

  /** Add the vector `v` under the IDs `from..end`. */
  function Adds(v: Vector, from: nat, end: nat): seq<Operation>
    requires from <= end <= UINT32_MAX
    decreases end - from, v
  {
    if from == end then [] else [Add(from, v)] + Adds(v, from + 1, end)
  }

  /** The IDs in use are `0..k`. */
  ghost predicate Numbered(s: State, k: nat) {
    |s.ids| == k && forall id: VectorId :: id in s.idToNode <==> id < k
  }

  lemma NextIsAccepted(config: Config, p: Platform, s: State, v: Vector, k: nat)
    requires Valid(config, p, s) && Numbered(s, k) && k < UINT32_MAX
    requires p.normalize(v) == Unit(v) && VectorOk(config, p, v)
    ensures Accepts(config, p, s, k, v) && Numbered(Inserted(config, p, s, k, v), k + 1)
  {
    hide GraphOk, EntryOk, Tombstones, Inserted;
    InsertedFields(config, p, s, k, v);
  }

  lemma AddsNothing(config: Config, p: Platform, s: State, v: Vector, k: nat)
    requires Valid(config, p, s) && k <= UINT32_MAX
    ensures Run(config, p, s, Adds(v, k, k)) == (config, s)
  {
  }

  lemma {:induction false} AddsGrow(config: Config, p: Platform, s: State, v: Vector, from: nat, end: nat)
    requires Valid(config, p, s) && from <= end <= UINT32_MAX && Numbered(s, from)
    requires p.normalize(v) == Unit(v) && VectorOk(config, p, v)
    ensures var (c, r) := Run(config, p, s, Adds(v, from, end));
            c == config && Numbered(r, end)
    decreases end - from
  {
    hide Valid, Inserted, Numbered;
    if from < end {
      hide Run;
      NextIsAccepted(config, p, s, v, from);
      RunAdds(config, p, s, from, v, Adds(v, from + 1, end));
      AddsGrow(config, p, Inserted(config, p, s, from, v), v, from + 1, end);
    }
  }
}
