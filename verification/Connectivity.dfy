/** Small layers stay connected: as long as no list of a layer can exceed its limit, M above layer 0 and 2M on it,
    all nodes of the layer reach each other there. On layer 0 this means that queries miss nothing. */
module Connectivity {
  import opened Numbers
  import opened Ranking
  import opened Reachability
  import opened LayerSearch
  import opened Configuration
  import opened GraphLinks
  import opened HnswState
  import opened HnswOperations
  import opened InsertionPlan
  import opened EntryPath
  import opened Flat
  import opened Equivalence

  // ---------- Linking without pruning ----------

  /** The nodes on layer `c`. */
  ghost function Present(g: Graph, c: nat): set<nat> {
    set n | n in Nodes(|g|) && OnLayer(g, n, c)
  }

  lemma PresentAtMost(g: Graph, c: nat)
    ensures |Present(g, c)| <= |g|
  {
    SubsetSize(Present(g, c), Nodes(|g|));
  }

  lemma ReverseEdges(g: Graph, n: nat, c: nat, m: nat, a: nat, b: nat)
    requires OnLayer(g, m, c)
    ensures Edge(AddReverse(g, n, c, m), c, a, b) <==> Edge(g, c, a, b) || (a == m && b == n)
    ensures Present(AddReverse(g, n, c, m), c) == Present(g, c)
  {
  }

  /** On a layer with at most one node more than the limit no list is ever too long, so linking a node
      back adds its reverse links and takes nothing away. */
  lemma {:induction false} LinkOnlyAdds(x: Context, g: Graph, n: nat, c: nat, rest: seq<nat>, a: nat, b: nat)
    requires Coherent(x, g) && Linking(x.config, g, n, c, rest)
    requires |Present(g, c)| <= MaximumConnections(x.config, c) + 1
    ensures Edge(Link(x, g, n, c, rest), c, a, b) <==> Edge(g, c, a, b) || (b == n && a in rest)
    decreases |rest|
  {
    hide Linking, GoodList, Link, Prune, AddReverse, Edge, Present;
    LinkUnfolds(x, g, n, c, rest);
    if rest != [] {
      var m := rest[0];
      var g1 := AddReverse(g, n, c, m);
      ReverseEdges(g, n, c, m, a, b);
      ListIsShort(g1, c, m);
      NothingPruned(x, g1, m, c);
      LinkOnlyAdds(x, g1, n, c, rest[1..], a, b);
      assert rest == [m] + rest[1..];
    }
  }

  lemma NothingPruned(x: Context, g: Graph, m: nat, c: nat)
    requires Coherent(x, g) && OnLayer(g, m, c) && GoodList(g, c, m)
    requires |Neighbours(g, m, c)| <= MaximumConnections(x.config, c)
    ensures Prune(x, g, m, c) == g
  {
  }

  lemma ListIsShort(g: Graph, c: nat, m: nat)
    requires GoodList(g, c, m) && OnLayer(g, m, c)
    ensures |Neighbours(g, m, c)| < |Present(g, c)|
  {
    var list, others := Neighbours(g, m, c), Present(g, c) - {m};
    DistinctCount(list);
    forall b | b in Elements(list) ensures b in others {
      GoodEdge(g, c, m, b);
    }
    SubsetSize(Elements(list), others);
    assert Present(g, c) == others + {m};
  }

  /** The planned lists of shared layers are not empty, and all planned neighbours are on their layer. */
  lemma PlannedListFacts(config: Config, p: Platform, s: State, v: Vector, c: nat)
    requires Valid(config, p, s) && s.graph != []
    ensures var list := PlannedList(config, p, s, v, c);
            && (c <= SharedTop(p, s) ==> list != [])
            && (forall m :: m in list ==> OnLayer(s.graph, m, c))
  {
    hide Valid, TakenFrom, ViewOf, PlannedList, Planned, LeadsDown;
    var way, entries := InsertionFollowsSearches(config, p, s, v);
    var list := PlannedList(config, p, s, v, c);
    if c <= SharedTop(p, s) {
      var view, x := ViewOf(p, s.ids, s.vectors, v), ContextOf(config, p, s);
      assert TakenFrom(x, view, s.graph, c, entries[c + 1], entries[c], list);
      TakenIsPresent(config, p, s, view, c, entries[c + 1], entries[c], list);
    }
  }

  lemma TakenIsPresent(config: Config, p: Platform, s: State, view: View, c: nat, entry: nat, best: nat, list: seq<nat>)
    requires Valid(config, p, s) && TakenFrom(ContextOf(config, p, s), view, s.graph, c, entry, best, list)
    ensures list != [] && forall m :: m in list ==> OnLayer(s.graph, m, c)
  {
    TakenCount(ContextOf(config, p, s), view, s.graph, c, entry, best, list);
    ReachableOnLayer(config, s.graph, c, entry);
  }

  /** The nodes of a layer once a new node was appended. */
  lemma PlannedPresent(config: Config, p: Platform, s: State, v: Vector, c: nat)
    requires Valid(config, p, s) && s.graph != []
    ensures var n, level := |s.graph|, Least(p.drawLevel(s.random), MAXIMUM_GENERATED_LEVEL);
            Present(Planned(config, p, s, v), c) == Present(s.graph, c) + (if c <= level then {n} else {})
  {
    hide NewLists, LayerOk, EntryOk, VectorOk, IdsOk, Tombstones;
  }

  /** The exact effect of an insertion on a layer whose lists cannot exceed their limit: the new node gets its planned
      links, each in both directions, and no other link comes or goes. */
  lemma InsertedEdges(config: Config, p: Platform, s: State, id: VectorId, v: Vector, c: nat, a: nat, b: nat)
    requires Insertable(config, p, s, id, v) && s.graph != []
    requires c <= SharedTop(p, s) && |Present(s.graph, c)| <= MaximumConnections(config, c)
    ensures var n, list := |s.ids|, PlannedList(config, p, s, v, c);
            Edge(Inserted(config, p, s, id, v).graph, c, a, b)
            <==> Edge(s.graph, c, a, b) || (a == n && b in list) || (b == n && a in list)
  {
    hide Valid, Inserted, Planned, PlannedList, Linking, Link, Present;
    InsertedLayer(config, p, s, id, v, c);
    PlannedPresent(config, p, s, v, c);
    LinkOnlyAdds(Context(config, p, s.ids + [id], s.vectors + [v]), Planned(config, p, s, v), |s.ids|, c,
                 PlannedList(config, p, s, v, c), a, b);
  }

  // ---------- Connected layers ----------

  /** All nodes of layer `c` reach each other there. */
  ghost predicate ConnectedOn(g: Graph, c: nat) {
    forall a: nat, b: nat :: OnLayer(g, a, c) && OnLayer(g, b, c) ==> b in ReachableSet(Layer(g, c), a)
  }

  /** More links reach at least as much. */
  lemma MoreLinksReachMore(k: Links, l: Links, a: nat)
    requires ClosedLinks(l) && |k| <= |l| && a < |k|
    requires forall v: nat, w: nat :: v < |k| && w in k[v] ==> w in l[v]
    ensures ReachableSet(k, a) <= ReachableSet(l, a)
  {
    ReachesItself(l, a);
    var s := ReachableSet(l, a);
    forall v, w | v in s && v < |k| && w in k[v] ensures w in s {
      ReachesNeighbour(l, a, v, w);
    }
    ClosureContainsReachable(k, a, s);
  }

  lemma ReachIsTransitive(l: Links, a: nat, b: nat, c: nat)
    requires ClosedLinks(l) && b in ReachableSet(l, a) && c in ReachableSet(l, b)
    ensures c in ReachableSet(l, a)
  {
    var s := ReachableSet(l, a);
    forall v, w | v in s && v < |l| && w in l[v] ensures w in s {
      ReachesNeighbour(l, a, v, w);
    }
    ClosureContainsReachable(l, b, s);
  }

  /** A node linked in both directions to one node of a connected layer joins it. */
  lemma OneMoreConnected(g: Graph, h: Graph, c: nat, m: nat)
    requires ConnectedOn(g, c) && |h| == |g| + 1 && OnLayer(g, m, c) && ClosedLinks(Layer(h, c))
    requires forall a: nat :: OnLayer(h, a, c) <==> OnLayer(g, a, c) || a == |g|
    requires forall a: nat, b: nat :: Edge(g, c, a, b) ==> Edge(h, c, a, b)
    requires Edge(h, c, m, |g|) && Edge(h, c, |g|, m)
    ensures ConnectedOn(h, c)
  {
    var k, l, n := Layer(g, c), Layer(h, c), |g|;
    forall v: nat, w: nat | v < |k| && w in k[v] ensures w in l[v] {
      assert Edge(g, c, v, w);
    }
    hide ReachableSet, Edge;
    forall a: nat | OnLayer(h, a, c) ensures m in ReachableSet(l, a) && a in ReachableSet(l, m) {
      ReachesItself(l, a);
      ReachesItself(l, m);
      if a != n {
        MoreLinksReachMore(k, l, a);
        MoreLinksReachMore(k, l, m);
      } else {
        NeighbourIsReached(h, c, n, m);
        NeighbourIsReached(h, c, m, n);
      }
    }
    forall a: nat, b: nat | OnLayer(h, a, c) && OnLayer(h, b, c) ensures b in ReachableSet(l, a) {
      ReachIsTransitive(l, a, m, b);
    }
  }

  lemma NeighbourIsReached(g: Graph, c: nat, a: nat, b: nat)
    requires ClosedLinks(Layer(g, c)) && a < |g| && Edge(g, c, a, b)
    ensures b in ReachableSet(Layer(g, c), a)
  {
    ReachesItself(Layer(g, c), a);
    ReachesNeighbour(Layer(g, c), a, a, b);
  }

  lemma BaseIsClosed(config: Config, p: Platform, s: State)
    requires Valid(config, p, s)
    ensures ClosedLinks(Layer(s.graph, 0))
  {
    LayerIsClosed(config, s.graph, 0);
  }

  /** A layer is connected while it has at most one node more than a list may hold, tombstones included. */
  ghost predicate ConnectedWhileSmall(config: Config, s: State) {
    forall c: nat :: |Present(s.graph, c)| <= MaximumConnections(config, c) + 1 ==> ConnectedOn(s.graph, c)
  }

  lemma InsertedIsConnected(config: Config, p: Platform, s: State, id: VectorId, v: Vector)
    requires Insertable(config, p, s, id, v) && ConnectedWhileSmall(config, s)
    ensures ConnectedWhileSmall(config, Inserted(config, p, s, id, v))
  {
    hide Valid, Inserted, ConnectedOn, Present;
    var r := Inserted(config, p, s, id, v);
    forall c: nat | |Present(r.graph, c)| <= MaximumConnections(config, c) + 1 ensures ConnectedOn(r.graph, c) {
      InsertedShape(config, p, s, id, v);
      if |s.graph| == 0 {
        LonelyIsConnected(r.graph, 0, c);
      } else if c > SharedTop(p, s) {
        UnsharedIsConnected(config, p, s, id, v, c);
      } else {
        SharedIsConnected(config, p, s, id, v, c);
      }
    }
  }

  lemma LonelyIsConnected(g: Graph, n: nat, c: nat)
    requires forall a: nat :: OnLayer(g, a, c) ==> a == n
    ensures ConnectedOn(g, c)
  {
    if n < |g| {
      ReachesItself(Layer(g, c), n);
    }
  }

  /** A layer that the new node shares with old ones. */
  lemma SharedIsConnected(config: Config, p: Platform, s: State, id: VectorId, v: Vector, c: nat)
    requires Insertable(config, p, s, id, v) && ConnectedWhileSmall(config, s) && s.graph != [] && c <= SharedTop(p, s)
    requires |Present(Inserted(config, p, s, id, v).graph, c)| <= MaximumConnections(config, c) + 1
    ensures ConnectedOn(Inserted(config, p, s, id, v).graph, c)
  {
    hide Valid, Inserted, PlannedList, ConnectedOn, Edge, Present;
    var r, n, list := Inserted(config, p, s, id, v), |s.graph|, PlannedList(config, p, s, v, c);
    InsertedShape(config, p, s, id, v);
    InsertedPresent(s.graph, r.graph, c);
    PlannedListFacts(config, p, s, v, c);
    InsertedLayerIsClosed(config, p, s, id, v, c);
    forall a: nat, b: nat
      ensures Edge(r.graph, c, a, b) <==> Edge(s.graph, c, a, b) || (a == n && b in list) || (b == n && a in list)
    {
      InsertedEdges(config, p, s, id, v, c, a, b);
    }
    assert list[0] in list;
    OneMoreConnected(s.graph, r.graph, c, list[0]);
  }

  lemma InsertedPresent(g: Graph, h: Graph, c: nat)
    requires |h| == |g| + 1 && forall m :: 0 <= m < |g| ==> |h[m].levels| == |g[m].levels|
    ensures |Present(h, c)| == |Present(g, c)| + if OnLayer(h, |g|, c) then 1 else 0
    ensures forall a: nat :: OnLayer(h, a, c) <==> OnLayer(g, a, c) || (a == |g| && OnLayer(h, |g|, c))
  {
    assert Present(h, c) == Present(g, c) + if OnLayer(h, |g|, c) then {|g|} else {};
  }

  lemma InsertedLayerIsClosed(config: Config, p: Platform, s: State, id: VectorId, v: Vector, c: nat)
    requires Insertable(config, p, s, id, v)
    ensures ClosedLinks(Layer(Inserted(config, p, s, id, v).graph, c))
  {
    hide Inserted;
    InsertedIsValid(config, p, s, id, v);
    LayerIsClosed(config, Inserted(config, p, s, id, v).graph, c);
  }

  /** A layer above the shared ones: either nothing happens to it or the new node is alone there. */
  lemma UnsharedIsConnected(config: Config, p: Platform, s: State, id: VectorId, v: Vector, c: nat)
    requires Insertable(config, p, s, id, v) && ConnectedWhileSmall(config, s) && s.graph != [] && c > SharedTop(p, s)
    requires |Present(Inserted(config, p, s, id, v).graph, c)| <= MaximumConnections(config, c) + 1
    ensures ConnectedOn(Inserted(config, p, s, id, v).graph, c)
  {
    hide Inserted, Present, GraphOk, IdsOk, Tombstones, VectorOk;
    var r := Inserted(config, p, s, id, v);
    InsertedShape(config, p, s, id, v);
    InsertedPresent(s.graph, r.graph, c);
    if c > s.maxLevel {
      LonelyIsConnected(r.graph, |s.graph|, c);
    } else {
      InsertedLayerIsClosed(config, p, s, id, v, c);
      InsertedLayer(config, p, s, id, v, c);
      PlannedEdges(config, p, s, v, c);
      assert forall a: nat, b: nat :: Edge(s.graph, c, a, b) ==> Edge(r.graph, c, a, b);
      MoreIsConnected(s.graph, r.graph, c);
    }
  }

  lemma MoreIsConnected(g: Graph, h: Graph, c: nat)
    requires ConnectedOn(g, c) && |g| <= |h| && ClosedLinks(Layer(h, c))
    requires forall a: nat :: OnLayer(h, a, c) <==> OnLayer(g, a, c)
    requires forall a: nat, b: nat :: Edge(g, c, a, b) ==> Edge(h, c, a, b)
    ensures ConnectedOn(h, c)
  {
    var k, l := Layer(g, c), Layer(h, c);
    forall v: nat, w: nat | v < |k| && w in k[v] ensures w in l[v] {
      assert Edge(g, c, v, w);
    }
    forall a: nat, b: nat | OnLayer(h, a, c) && OnLayer(h, b, c) ensures b in ReachableSet(l, a) {
      MoreLinksReachMore(k, l, a);
    }
  }

  lemma ErasedIsConnected(config: Config, s: State, id: VectorId)
    requires ConnectedWhileSmall(config, s)
    ensures ConnectedWhileSmall(config, Erased(s, id))
  {
    var g, h := s.graph, Erased(s, id).graph;
    forall c: nat | |Present(h, c)| <= MaximumConnections(config, c) + 1 ensures ConnectedOn(h, c) {
      assert forall n: nat :: OnLayer(h, n, c) <==> OnLayer(g, n, c);
      assert Present(h, c) == Present(g, c) && Layer(h, c) == Layer(g, c);
    }
  }

  lemma {:induction false} CopyFromIsConnected(config: Config, p: Platform, s: State, all: seq<VectorId>, k: nat,
                                              r: State)
    requires CanCopy(config, p, s, all) && k <= |all| && Copied(config, p, s, all, k, r)
    requires ConnectedWhileSmall(config, r)
    ensures ConnectedWhileSmall(config, CopyFrom(config, p, s, all, k, r))
    decreases |all| - k
  {
    hide Copied, CopyFrom, ConnectedWhileSmall, Inserted;
    CopyFromUnfolds(config, p, s, all, k, r);
    if k < |all| {
      NextIsInsertable(config, p, s, all, k, r);
      InsertedIsConnected(config, p, r, all[k], Stored(s, all[k]));
      CopyFromIsConnected(config, p, s, all, k + 1, CopyNext(config, p, s, all, k, r));
    }
  }

  lemma EmptyIsConnected(config: Config, random: Rng)
    ensures ConnectedWhileSmall(config, Empty(random))
  {
  }

  lemma RebuiltIsConnected(config: Config, p: Platform, s: State, seed: nat)
    requires Valid(config, p, s) && seed <= UINT64_MAX
    ensures ConnectedWhileSmall(config, Rebuilt(config, p, s, seed))
  {
    EmptyIsConnected(config, p.seeded(seed));
    var c := config.(randomSeed := seed);
    ReadyToCopy(config, p, s, seed);
    hide CanCopy, Copied, CopyFrom, Valid, ConnectedOn, Present;
    SameLimits(config, c, Empty(p.seeded(seed)));
    CopyFromIsConnected(c, p, s, LiveIds(s), 0, Empty(p.seeded(seed)));
    SameLimits(c, config, Rebuilt(config, p, s, seed));
  }

  lemma SameLimits(config: Config, other: Config, s: State)
    requires other.maxConnections == config.maxConnections && ConnectedWhileSmall(config, s)
    ensures ConnectedWhileSmall(other, s)
  {
    hide Present, ConnectedOn;
    assert forall c: nat :: MaximumConnections(other, c) == MaximumConnections(config, c);
  }

  /** Every run from a small connected index, for example an empty or a loaded one, keeps this. */
  lemma {:induction false} RunKeepsConnected(config: Config, p: Platform, s: State, ops: seq<Operation>)
    requires Valid(config, p, s) && ConnectedWhileSmall(config, s)
    ensures var (c, t) := Run(config, p, s, ops);
            c.maxConnections == config.maxConnections && c.dimension == config.dimension && ConnectedWhileSmall(c, t)
    decreases |ops|
  {
    hide Valid, ConnectedWhileSmall, Apply;
    if ops != [] {
      ApplyIsValid(config, p, s, ops[0]);
      ApplyIsConnected(config, p, s, ops[0]);
      var (c, t) := Apply(config, p, s, ops[0]);
      RunKeepsConnected(c, p, t, ops[1..]);
    }
  }

  lemma ApplyIsConnected(config: Config, p: Platform, s: State, op: Operation)
    requires Valid(config, p, s) && ConnectedWhileSmall(config, s)
    ensures var (c, t) := Apply(config, p, s, op);
            c.maxConnections == config.maxConnections && c.dimension == config.dimension && ConnectedWhileSmall(c, t)
  {
    hide Valid, ConnectedWhileSmall, Erased, Inserted, Rebuilt, Insertable;
    match op
    case Add(id, vector) =>
      if Accepts(config, p, s, id, vector) {
        InsertedIsConnected(config, p, s, id, p.normalize(vector).vector);
      }
    case Erase(id) => ErasedIsConnected(config, s, id);
    case Rebuild(seed) =>
      if seed <= UINT64_MAX {
        RebuiltIsConnected(config, p, s, seed);
        SameLimits(config, config.(randomSeed := seed), Rebuilt(config, p, s, seed));
      }
  }

  lemma GrownIsConnected(config: Config, p: Platform, ops: seq<Operation>)
    requires ValidConfig(config)
    ensures var (c, s) := Grown(config, p, ops);
            && c.maxConnections == config.maxConnections && c.dimension == config.dimension
            && ConnectedWhileSmall(config, s)
  {
    var start := Empty(p.seeded(config.randomSeed));
    EmptyIsValid(config, p, p.seeded(config.randomSeed));
    EmptyIsConnected(config, p.seeded(config.randomSeed));
    RunKeepsConnected(config, p, start, ops);
  }

  // ---------- What queries get ----------

  lemma BaseIsConnected(config: Config, p: Platform, s: State)
    requires Valid(config, p, s) && ConnectedWhileSmall(config, s) && |s.graph| <= 2 * config.maxConnections + 1
    ensures ConnectedOn(s.graph, 0)
  {
    hide Valid, ConnectedOn, Present;
    PresentAtMost(s.graph, 0);
  }

  lemma BaseReaches(config: Config, p: Platform, s: State, a: nat, b: nat)
    requires Valid(config, p, s) && ConnectedOn(s.graph, 0) && a < |s.graph| && b < |s.graph|
    ensures b in ReachableSet(Layer(s.graph, 0), a)
  {
    hide LayerOk;
    assert OnLayer(s.graph, a, 0) && OnLayer(s.graph, b, 0);
  }

  lemma ConnectedIsAllReached(config: Config, p: Platform, s: State, query: Vector)
    requires Valid(config, p, s) && s.graph != [] && p.normalize(query).Unit? && ConnectedOn(s.graph, 0)
    ensures AllReached(config, p, s, query)
  {
    hide ReachableSet, ConnectedOn, BaseEntry;
    var entry := BaseEntry(config, p, s, p.normalize(query).vector);
    hide Valid;
    forall n | n in Eligible(s.graph, true) ensures n in ReachableSet(Layer(s.graph, 0), entry) {
      BaseReaches(config, p, s, entry, n);
    }
    assert Answerable(Layer(s.graph, 0), Eligible(s.graph, true), entry) == Eligible(s.graph, true);
  }

  /** Every grown index with at most 2M + 1 nodes, tombstones included, answers exactly like the flat index
      whenever k or ef is at least the number of live vectors. */
  lemma SmallIndexIsExact(config: Config, p: Platform, ops: seq<Operation>, query: Vector, k: nat, ef: nat,
                          r: SearchOutcome)
    requires ValidConfig(config)
    ensures var (c, s) := Grown(config, p, ops);
            && |s.vectors| == |s.graph|
            && (|s.graph| <= 2 * config.maxConnections + 1 && Queried(c, p, s, query, k, ef) ==>
                  && AllReached(c, p, s, query)
                  && (Most(k, ef) >= |Eligible(s.graph, true)| && Answers(c.dimension, p, LiveContents(s), query, k, r)
                      ==> Answer(c, p, s, query, k, ef) == r))
  {
    GrownIsConnected(config, p, ops);
    var (c, s) := Grown(config, p, ops);
    ValidLengths(c, p, s);
    hide Valid, Run, Answers, LiveContents, Answer, AllReached, ConnectedOn, ConnectedWhileSmall;
    SameLimits(config, c, s);
    if |s.graph| <= 2 * config.maxConnections + 1 && Queried(c, p, s, query, k, ef) {
      BaseIsConnected(c, p, s);
      ConnectedIsAllReached(c, p, s, query);
      if Most(k, ef) >= |Eligible(s.graph, true)| && Answers(c.dimension, p, LiveContents(s), query, k, r) {
        GraphAnswerIsScanAnswer(c, p, s, query, k, ef, r);
      }
    }
  }
}
