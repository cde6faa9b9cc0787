/** How insertion connects a new node, layer by layer: where its neighbours are looked for, which of them it takes,
    and what linking them back does to each layer. */
module InsertionPlan {
  import opened Numbers
  import opened Ranking
  import opened Reachability
  import opened LayerSearch
  import opened Configuration
  import opened NeighborSelection
  import opened GraphLinks
  import opened HnswState
  import opened EntryPath

  // ---------- Looking for neighbours ----------

  /** On layer `d` a list is what the configured strategy takes from a search for `efConstruction` nodes that
      starts at `entry`, and `best` is the best node that search found. */
  ghost predicate TakenFrom(x: Context, view: View, g: Graph, d: nat, entry: nat, best: nat, list: seq<nat>) {
    && |view| == |g| == |x.vectors| && OnLayer(g, entry, d) && x.config.efConstruction > 0
    && Searchable(view, Layer(g, d))
    && var found := Search(view, Layer(g, d), Nodes(|g|), entry, x.config.efConstruction);
    && found != [] && best == found[0]
    && list == Select(x.platform, x.config.selection, x.vectors, view, found, MaximumConnections(x.config, d))
  }

  /** `entries[d + 1]` is where the search of layer `d` starts: the best node found on the layer above. */
  ghost predicate FollowsSearches(x: Context, view: View, g: Graph, entries: seq<nat>, lists: seq<seq<nat>>) {
    && |entries| == |lists| + 1
    && forall d :: 0 <= d < |lists| ==> TakenFrom(x, view, g, d, entries[d + 1], entries[d], lists[d])
  }

  lemma CandidatesAreFound(config: Config, view: View, g: Graph, entry: nat, c: nat)
    requires ValidConfig(config) && DistinctIds(view) && |view| == |g| && GraphOk(config, g) && OnLayer(g, entry, c)
    ensures Searchable(view, Layer(g, c))
    ensures Candidates(config, view, g, entry, c)
            == Search(view, Layer(g, c), Nodes(|g|), entry, config.efConstruction)
  {
    LayerIsClosed(config, g, c);
    assert Eligible(g, false) == Nodes(|g|);
  }

  /** A plan follows its searches. */
  lemma {:induction false} PlanFollowsSearches(x: Context, view: View, g: Graph, entry: nat, c: nat)
    returns (entries: seq<nat>)
    requires ValidConfig(x.config) && Coherent(x, g) && GraphOk(x.config, g)
    requires DistinctIds(view) && |view| == |g| && OnLayer(g, entry, c)
    ensures FollowsSearches(x, view, g, entries, Plan(x, view, g, entry, c)) && entries[c + 1] == entry
    decreases c
  {
    hide Candidates, Select, GraphOk, ViewOf, Search, Searchable;
    var candidates := Candidates(x.config, view, g, entry, c);
    var plan := Plan(x, view, g, entry, c);
    CandidatesAreFound(x.config, view, g, entry, c);
    if c == 0 {
      entries := [candidates[0], entry];
    } else {
      var rest := PlanFollowsSearches(x, view, g, candidates[0], c - 1);
      entries := rest + [entry];
      var lower := Plan(x, view, g, candidates[0], c - 1);
      assert plan[c] == Select(x.platform, x.config.selection, x.vectors, view, candidates,
                               MaximumConnections(x.config, c));
      forall d | 0 <= d < |plan| ensures TakenFrom(x, view, g, d, entries[d + 1], entries[d], plan[d]) {
        if d < c {
          assert TakenFrom(x, view, g, d, rest[d + 1], rest[d], lower[d]);
          assert plan[d] == lower[d];
        }
      }
    }
  }

  /** Such a list holds distinct nodes that the search reaches, as many as limit, beam and reachability allow. */
  lemma TakenCount(x: Context, view: View, g: Graph, d: nat, entry: nat, best: nat, list: seq<nat>)
    requires TakenFrom(x, view, g, d, entry, best, list)
    ensures var reached := ReachableSet(Layer(g, d), entry);
            && Distinct(list) && (forall m :: m in list ==> m in reached) && best in reached
            && |list| == Least(MaximumConnections(x.config, d), Least(x.config.efConstruction, |reached|))
            && |reached| > 0
  {
    var reached, found := ReachableSet(Layer(g, d), entry),
                          Search(view, Layer(g, d), Nodes(|g|), entry, x.config.efConstruction);
    SearchCount(view, Layer(g, d), Nodes(|g|), entry, x.config.efConstruction);
    assert Answerable(Layer(g, d), Nodes(|g|), entry) == reached;
    SelectIsSubset(x.platform, x.config.selection, x.vectors, view, found, MaximumConnections(x.config, d));
    hide Search, Select, ReachableSet, Searchable;
    assert forall m :: m in found ==> m in Elements(found);
    ReachesItself(Layer(g, d), entry);
  }

  // ---------- The planned graph ----------

  /** The graph with a new node appended, its lists as planned. */
  ghost function Planned(config: Config, p: Platform, s: State, v: Vector): Graph
    requires Valid(config, p, s) && s.graph != []
  {
    AppendedGraph(config, p, s.(random := p.advance(s.random)), v, NewLevel(p, s.random))
  }

  /** The list that a new node starts with on layer `c`. */
  ghost function PlannedList(config: Config, p: Platform, s: State, v: Vector, c: nat): seq<nat>
    requires Valid(config, p, s) && s.graph != []
  {
    Neighbours(Planned(config, p, s, v), |s.graph|, c)
  }

  /** The highest layer that a new node shares with the old ones. */
  ghost function SharedTop(p: Platform, s: State): nat {
    Least(Least(p.drawLevel(s.random), MAXIMUM_GENERATED_LEVEL), s.maxLevel)
  }

  /** The lists of a new node. Coming down from the entry point to its level, then searching each shared layer from
      the best node found above, it takes what the configured strategy selects; above the old top it has none. */
  lemma InsertionFollowsSearches(config: Config, p: Platform, s: State, v: Vector)
    returns (way: seq<nat>, entries: seq<nat>)
    requires Valid(config, p, s) && s.graph != []
    ensures |s.ids| == |s.vectors|
    ensures var view, x := ViewOf(p, s.ids, s.vectors, v), ContextOf(config, p, s);
            var level, top := Least(p.drawLevel(s.random), MAXIMUM_GENERATED_LEVEL), SharedTop(p, s);
            && LeadsDown(view, s.graph, way, s.maxLevel, level) && way[s.maxLevel] == s.entryPoint
            && |entries| == top + 2 && entries[top + 1] == way[top]
            && (forall d :: 0 <= d <= top ==>
                  TakenFrom(x, view, s.graph, d, entries[d + 1], entries[d], PlannedList(config, p, s, v, d)))
            && (forall d :: d > top ==> PlannedList(config, p, s, v, d) == [])
  {
    hide Valid, GraphOk, Plan, Descend, TakenFrom, Lands, ViewOf, PlannedList, Coherent, DistinctIds, ReachableSet;
    var level := NewLevel(p, s.random);
    InsertionStarts(config, p, s, v);
    PlannedIsPadded(config, p, s, v);
    var x, view, top := ContextOf(config, p, s), ViewOf(p, s.ids, s.vectors, v), Least(level, s.maxLevel);
    way := DescendLeadsDown(config, view, s.graph, s.entryPoint, s.maxLevel, level);
    entries := PlanFollowsSearches(x, view, s.graph, way[top], top);
    var plan := Plan(x, view, s.graph, way[top], top);
    forall d | 0 <= d <= top
      ensures TakenFrom(x, view, s.graph, d, entries[d + 1], entries[d], PlannedList(config, p, s, v, d))
    {
      assert TakenFrom(x, view, s.graph, d, entries[d + 1], entries[d], plan[d]);
    }
  }

  lemma InsertionStarts(config: Config, p: Platform, s: State, v: Vector)
    requires Valid(config, p, s) && s.graph != []
    ensures |s.ids| == |s.vectors| == |s.graph| && DistinctIds(ViewOf(p, s.ids, s.vectors, v))
    ensures ValidConfig(config) && GraphOk(config, s.graph) && Coherent(ContextOf(config, p, s), s.graph)
    ensures OnLayer(s.graph, s.entryPoint, s.maxLevel)
  {
    IdsAreDistinct(s.ids, s.idToNode);
  }

  lemma PlannedIsPadded(config: Config, p: Platform, s: State, v: Vector)
    requires Valid(config, p, s) && s.graph != []
    ensures |s.ids| == |s.vectors| && DistinctIds(ViewOf(p, s.ids, s.vectors, v))
    ensures Coherent(ContextOf(config, p, s), s.graph)
    ensures var level := NewLevel(p, s.random);
            var view, x, top := ViewOf(p, s.ids, s.vectors, v), ContextOf(config, p, s), Least(level, s.maxLevel);
            var entry := Descend(config, view, s.graph, s.entryPoint, s.maxLevel, level);
            && (forall d :: 0 <= d <= top ==> PlannedList(config, p, s, v, d) == Plan(x, view, s.graph, entry, top)[d])
            && (forall d :: d > top ==> PlannedList(config, p, s, v, d) == [])
  {
    hide Plan, Descend, GraphOk, VectorOk, Tombstones;
    IdsAreDistinct(s.ids, s.idToNode);
  }

  // ---------- Linking back, layer by layer ----------

  /** Two graphs of one shape have the same lists on layer `c`. */
  ghost predicate SameOn(g: Graph, h: Graph, c: nat) {
    SameShape(g, h) && forall a: nat :: Neighbours(g, a, c) == Neighbours(h, a, c)
  }

  lemma SameOnFacts(config: Config, g: Graph, h: Graph, c: nat, n: nat, rest: seq<nat>)
    requires SameOn(g, h, c)
    ensures forall a: nat :: OnLayer(g, a, c) <==> OnLayer(h, a, c)
    ensures forall a: nat :: GoodList(g, c, a) <==> GoodList(h, c, a)
    ensures Linking(config, g, n, c, rest) ==> Linking(config, h, n, c, rest)
  {
    forall a: nat ensures GoodList(g, c, a) <==> GoodList(h, c, a) {
      assert Neighbours(g, a, c) == Neighbours(h, a, c);
    }
    assert forall a: nat, b: nat :: Edge(g, c, a, b) <==> Edge(h, c, a, b);
  }

  lemma PruneIsLocal(x: Context, g: Graph, h: Graph, owner: nat, c: nat)
    requires Coherent(x, g) && Coherent(x, h) && SameOn(g, h, c) && OnLayer(g, owner, c) && GoodList(g, c, owner)
    ensures OnLayer(h, owner, c) && GoodList(h, c, owner)
    ensures SameOn(Prune(x, g, owner, c), Prune(x, h, owner, c), c)
  {
    hide Prune, PrunedList, Coherent, Linking, Distinct;
    SameOnFacts(x.config, g, h, c, 0, []);
    var g1, h1 := Prune(x, g, owner, c), Prune(x, h, owner, c);
    forall a: nat ensures Neighbours(g1, a, c) == Neighbours(h1, a, c) {
      PruneLists(x, g, owner, c, a);
      PruneLists(x, h, owner, c, a);
      PrunedListsAgree(x, g, h, owner, c, a);
    }
  }

  lemma PrunedListsAgree(x: Context, g: Graph, h: Graph, owner: nat, c: nat, a: nat)
    requires Coherent(x, g) && Coherent(x, h) && SameOn(g, h, c) && OnLayer(g, owner, c) && OnLayer(h, owner, c)
    requires GoodList(g, c, owner) && GoodList(h, c, owner)
    ensures PrunedList(x, g, owner, c, a) == PrunedList(x, h, owner, c, a)
  {
    hide Select, Sort;
    assert g[owner].levels[c] == Neighbours(g, owner, c) == Neighbours(h, owner, c) == h[owner].levels[c];
    assert Neighbours(g, a, c) == Neighbours(h, a, c);
  }

  /** What linking does to a layer depends on nothing but that layer. */
  lemma {:induction false} LinkIsLocal(x: Context, g: Graph, h: Graph, n: nat, c: nat, rest: seq<nat>)
    requires Coherent(x, g) && Coherent(x, h) && SameOn(g, h, c)
    requires Linking(x.config, g, n, c, rest) && Linking(x.config, h, n, c, rest)
    ensures SameOn(Link(x, g, n, c, rest), Link(x, h, n, c, rest), c)
    decreases |rest|
  {
    hide Linking, Prune, Link, GoodList;
    LinkUnfolds(x, g, n, c, rest);
    LinkUnfolds(x, h, n, c, rest);
    if rest != [] {
      var g1, h1 := AddReverse(g, n, c, rest[0]), AddReverse(h, n, c, rest[0]);
      PruneIsLocal(x, g1, h1, rest[0], c);
      LinkIsLocal(x, Prune(x, g1, rest[0], c), Prune(x, h1, rest[0], c), n, c, rest[1..]);
    }
  }

  lemma SameOnJoins(f: Graph, g: Graph, h: Graph, c: nat)
    requires SameOn(f, g, c) && SameOn(g, h, c)
    ensures SameOn(f, h, c)
  {
  }

  lemma SameAsItself(g: Graph, c: nat)
    ensures SameOn(g, g, c)
  {
  }

  lemma OneLayerLinked(x: Context, g: Graph, n: nat, c: nat, d: nat)
    requires Coherent(x, g) && Linking(x.config, g, n, c, Neighbours(g, n, c)) && c != d
    ensures var h := Link(x, g, n, c, Neighbours(g, n, c));
            Coherent(x, h) && SameOn(h, g, d) && SameOn(g, h, d) && Neighbours(h, n, d) == Neighbours(g, n, d)
  {
    hide Linking, Link;
  }

  /** Linking the layers from `c` to `top` leaves the other layers alone. */
  lemma {:induction false} OtherLayersStay(x: Context, g: Graph, n: nat, c: nat, top: nat, d: nat)
    requires Coherent(x, g) && c <= top + 1 && Ready(x.config, g, n, c, top) && (d < c || d > top)
    ensures SameOn(LinkLayers(x, g, n, c, top), g, d)
    decreases top + 1 - c
  {
    hide LinkLayers, Ready, Linking, Link, SameOn, SameShape, SameElsewhere, Coherent, Neighbours;
    LinkLayersUnfold(x, g, n, c, top);
    if c <= top {
      var h := Link(x, g, n, c, Neighbours(g, n, c));
      OneLayerLinked(x, g, n, c, d);
      OtherLayersStay(x, h, n, c + 1, top, d);
      SameOnJoins(LinkLayers(x, g, n, c, top), h, g, d);
    } else {
      SameAsItself(g, d);
    }
  }

  /** Linking all layers does on each of them what linking that layer alone does. */
  lemma {:induction false} EachLayerIsLinked(x: Context, g: Graph, h: Graph, n: nat, c: nat, top: nat, d: nat)
    requires Coherent(x, g) && c <= d <= top && Ready(x.config, h, n, c, top) && SameOn(g, h, d) && Coherent(x, h)
    requires Linking(x.config, g, n, d, Neighbours(g, n, d))
    ensures SameOn(LinkLayers(x, h, n, c, top), Link(x, g, n, d, Neighbours(g, n, d)), d)
    decreases top + 1 - c
  {
    hide LinkLayers, Ready, Linking, Link, SameShape, SameElsewhere, Coherent, Neighbours, SameOn;
    LinkLayersUnfold(x, h, n, c, top);
    SameListOn(g, h, n, d);
    if c < d {
      var h1 := Link(x, h, n, c, Neighbours(h, n, c));
      OneLayerLinked(x, h, n, c, d);
      SameOnJoins(g, h, h1, d);
      EachLayerIsLinked(x, g, h1, n, c + 1, top, d);
    } else {
      var h1 := Link(x, h, n, d, Neighbours(h, n, d));
      SameOnTurned(g, h, d);
      LinkIsLocal(x, h, g, n, d, Neighbours(g, n, d));
      LinkKeepsCoherence(x, h, n, d);
      OtherLayersStay(x, h1, n, d + 1, top, d);
      SameOnJoins(LinkLayers(x, h, n, c, top), h1, Link(x, g, n, d, Neighbours(g, n, d)), d);
    }
  }

  lemma SameListOn(g: Graph, h: Graph, n: nat, d: nat)
    requires SameOn(g, h, d)
    ensures Neighbours(g, n, d) == Neighbours(h, n, d)
  {
  }

  lemma SameOnTurned(g: Graph, h: Graph, c: nat)
    requires SameOn(g, h, c)
    ensures SameOn(h, g, c)
  {
  }

  lemma LinkKeepsCoherence(x: Context, g: Graph, n: nat, c: nat)
    requires Coherent(x, g) && Linking(x.config, g, n, c, Neighbours(g, n, c))
    ensures Coherent(x, Link(x, g, n, c, Neighbours(g, n, c)))
  {
    hide Linking, Link;
  }

  lemma PlannedEdges(config: Config, p: Platform, s: State, v: Vector, c: nat)
    requires Valid(config, p, s) && s.graph != []
    ensures var g, n, list := Planned(config, p, s, v), |s.graph|, PlannedList(config, p, s, v, c);
            && |g| == n + 1
            && forall a: nat, b: nat :: Edge(g, c, a, b) <==> Edge(s.graph, c, a, b) || (a == n && b in list)
  {
    hide NewLists, LayerOk;
  }

  /** The linked graph as insertion builds it. */
  lemma InsertedIsLayered(config: Config, p: Platform, s: State, id: VectorId, v: Vector)
    requires Insertable(config, p, s, id, v) && s.graph != []
    ensures |s.graph| == |s.ids|
    ensures var x, g := Context(config, p, s.ids + [id], s.vectors + [v]), Planned(config, p, s, v);
            && Coherent(x, g) && Ready(config, g, |s.ids|, 0, SharedTop(p, s))
            && Inserted(config, p, s, id, v).graph == LinkLayers(x, g, |s.ids|, 0, SharedTop(p, s))
  {
    hide NewLists, LinkLayers, Ready;
    ReadyToLink(config, p, s.(random := p.advance(s.random)), id, v, NewLevel(p, s.random));
  }

  lemma ReadyMeansLinking(config: Config, g: Graph, n: nat, top: nat, d: nat)
    requires Ready(config, g, n, 0, top) && d <= top
    ensures Linking(config, g, n, d, Neighbours(g, n, d))
  {
    assert ReadyAt(config, g, n, 0, top, d);
  }

  /** Insertion gives the new node its planned lists, then gives each planned neighbour its link back, layer by layer
      and on each shared layer as if that layer were the only one; the layers above are untouched. */
  lemma InsertedLayer(config: Config, p: Platform, s: State, id: VectorId, v: Vector, c: nat)
    requires Insertable(config, p, s, id, v) && s.graph != []
    ensures |s.graph| == |s.ids|
    ensures var x, g := Context(config, p, s.ids + [id], s.vectors + [v]), Planned(config, p, s, v);
            var n, list := |s.ids|, PlannedList(config, p, s, v, c);
            && Coherent(x, g)
            && (forall a: nat, b: nat :: Edge(g, c, a, b) <==> Edge(s.graph, c, a, b) || (a == n && b in list))
            && (c <= SharedTop(p, s) ==>
                  && Linking(config, g, n, c, list)
                  && SameOn(Inserted(config, p, s, id, v).graph, Link(x, g, n, c, list), c))
            && (c > SharedTop(p, s) ==> SameOn(Inserted(config, p, s, id, v).graph, g, c))
  {
    hide Valid, Inserted, Planned, LinkLayers, Ready, Linking, Link, Edge, Neighbours, Coherent, SameShape, SharedTop;
    InsertedIsLayered(config, p, s, id, v);
    PlannedEdges(config, p, s, v, c);
    var x, g, n := Context(config, p, s.ids + [id], s.vectors + [v]), Planned(config, p, s, v), |s.ids|;
    SameAsItself(g, c);
    if c <= SharedTop(p, s) {
      ReadyMeansLinking(config, g, n, SharedTop(p, s), c);
      EachLayerIsLinked(x, g, g, n, 0, SharedTop(p, s), c);
    } else {
      OtherLayersStay(x, g, n, 0, SharedTop(p, s), c);
    }
  }

  /** The new node is on the layers up to the level drawn for it and live; all others keep levels and tombstones. The
      entry point moves exactly when the new node has more layers than any other. */
  lemma InsertedShape(config: Config, p: Platform, s: State, id: VectorId, v: Vector)
    requires Insertable(config, p, s, id, v)
    ensures |s.graph| == |s.ids|
    ensures var r, n := Inserted(config, p, s, id, v), |s.graph|;
            && |r.graph| == n + 1 && !r.graph[n].deleted
            && |r.graph[n].levels| == Least(p.drawLevel(s.random), 63) + 1
            && (forall m :: 0 <= m < n ==>
                  |r.graph[m].levels| == |s.graph[m].levels| && r.graph[m].deleted == s.graph[m].deleted)
            && (r.entryPoint == n <==> forall m :: 0 <= m < n ==> |s.graph[m].levels| < |r.graph[n].levels|)
            && (r.entryPoint != n ==> r.entryPoint == s.entryPoint)
            && (forall m :: 0 <= m <= n ==> |r.graph[m].levels| <= |r.graph[r.entryPoint].levels| == r.maxLevel + 1)
  {
    hide Valid, Inserted, EntryOk, LayerOk;
    InsertedFacts(config, p, s, id, v);
    EntryIsHighest(config, p, s);
  }

  lemma EntryIsHighest(config: Config, p: Platform, s: State)
    requires Valid(config, p, s)
    ensures |s.graph| == |s.ids|
    ensures s.graph != [] ==>
      s.entryPoint < |s.graph| && |s.graph[s.entryPoint].levels| == s.maxLevel + 1
      && forall m :: 0 <= m < |s.graph| ==> |s.graph[m].levels| <= s.maxLevel + 1
  {
    hide LayerOk;
  }

  lemma InsertedFacts(config: Config, p: Platform, s: State, id: VectorId, v: Vector)
    requires Insertable(config, p, s, id, v)
    ensures |s.graph| == |s.ids|
    ensures var r, n := Inserted(config, p, s, id, v), |s.graph|;
            var level := Least(p.drawLevel(s.random), MAXIMUM_GENERATED_LEVEL);
            && |r.graph| == n + 1 && !r.graph[n].deleted && |r.graph[n].levels| == level + 1
            && (forall m :: 0 <= m < n ==>
                  |r.graph[m].levels| == |s.graph[m].levels| && r.graph[m].deleted == s.graph[m].deleted)
            && r.entryPoint == (if n == 0 || level > s.maxLevel then n else s.entryPoint)
            && r.maxLevel == (if n == 0 || level > s.maxLevel then level else s.maxLevel)
  {
    hide NewLists, LayerOk, LevelCounts, EntryOk, VectorOk, IdsOk, Tombstones;
  }
}
