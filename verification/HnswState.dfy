/** The logical state of an HNSW index, its invariant, and insertion as a function on states. */
module HnswState {
  import opened Numbers
  import opened Ranking
  import opened Reachability
  import opened LayerSearch
  import opened GreedyDescent
  import opened Configuration
  import opened NeighborSelection
  import opened GraphLinks

  datatype State = State(
    vectors: seq<Vector>,
    ids: seq<VectorId>,
    graph: Graph,
    idToNode: map<VectorId, nat>,
    random: Rng,
    entryPoint: nat,
    maxLevel: nat,
    deletedCount: nat)

  function Empty(random: Rng): State {
    State([], [], [], map[], random, 0, 0, 0)
  }

  // ---------- Invariant ----------

  ghost predicate LevelCounts(g: Graph) {
    forall n :: 0 <= n < |g| ==> 1 <= |g[n].levels| <= MAXIMUM_GENERATED_LEVEL + 1
  }

  ghost predicate GraphOk(config: Config, g: Graph) {
    && LevelCounts(g)
    && (forall c :: LayerOk(config, g, c))
  }

  /** The entry point is on the highest level of the graph. */
  ghost predicate EntryOk(g: Graph, entry: nat, maxLevel: nat) {
    if |g| == 0 then entry == 0 && maxLevel == 0 else
      && entry < |g|
      && |g[entry].levels| == maxLevel + 1
      && forall n :: 0 <= n < |g| ==> |g[n].levels| <= maxLevel + 1
  }

  ghost predicate IdsOk(ids: seq<VectorId>, idToNode: map<VectorId, nat>) {
    && (forall n :: 0 <= n < |ids| ==> ids[n] in idToNode && idToNode[ids[n]] == n)
    && (forall id :: id in idToNode ==> idToNode[id] < |ids| && ids[idToNode[id]] == id)
  }

  ghost predicate VectorOk(config: Config, p: Platform, v: Vector) {
    |v| == config.dimension && p.unitNorm(v)
  }

  ghost function Tombstones(g: Graph): set<nat> {
    set n | n in Nodes(|g|) && g[n].deleted
  }

  ghost predicate Valid(config: Config, p: Platform, s: State) {
    && ValidConfig(config)
    && |s.vectors| == |s.ids| == |s.graph| <= UINT32_MAX
    && (forall n :: 0 <= n < |s.vectors| ==> VectorOk(config, p, s.vectors[n]))
    && IdsOk(s.ids, s.idToNode)
    && GraphOk(config, s.graph)
    && EntryOk(s.graph, s.entryPoint, s.maxLevel)
    && s.deletedCount == |Tombstones(s.graph)|
  }

  lemma EmptyIsValid(config: Config, p: Platform, random: Rng)
    requires ValidConfig(config)
    ensures Valid(config, p, Empty(random))
  {
  }

  lemma IdsAreDistinct(ids: seq<VectorId>, idToNode: map<VectorId, nat>)
    requires IdsOk(ids, idToNode)
    ensures Distinct(ids)
  {
  }

  /** Distinct neighbours other than the node itself are fewer than the nodes. */
  lemma DegreeBelowCount(list: seq<nat>, n: nat, count: nat)
    requires n < count && Distinct(list) && forall i :: 0 <= i < |list| ==> list[i] < count && list[i] != n
    ensures |list| < count
  {
    DistinctCount(list);
    assert Elements(list) <= Nodes(count) - {n};
    SubsetSize(Elements(list), Nodes(count) - {n});
  }

  // ---------- Layers ----------

  function Layer(g: Graph, c: nat): (links: Links)
    ensures |links| == |g|
    ensures forall n :: 0 <= n < |g| ==> links[n] == Neighbours(g, n, c)
  {
    seq(|g|, n requires 0 <= n < |g| => Neighbours(g, n, c))
  }

  lemma LayerIsClosed(config: Config, g: Graph, c: nat)
    requires LayerOk(config, g, c)
    ensures ClosedLinks(Layer(g, c))
  {
    forall a, i | 0 <= a < |g| && 0 <= i < |Layer(g, c)[a]| ensures Layer(g, c)[a][i] < |g| {
      assert GoodList(g, c, a);
    }
  }

  /** A walk that starts on a layer stays on it. */
  lemma ReachableOnLayer(config: Config, g: Graph, c: nat, entry: nat)
    requires LayerOk(config, g, c) && OnLayer(g, entry, c)
    ensures forall n :: n in ReachableSet(Layer(g, c), entry) ==> OnLayer(g, n, c)
  {
    var here := set n | n in Nodes(|g|) && OnLayer(g, n, c);
    forall v, w | v in here && v < |g| && w in Layer(g, c)[v] ensures w in here {
      assert GoodList(g, c, v);
    }
    ClosureContainsReachable(Layer(g, c), entry, here);
  }

  /** Nodes a search may return: all of them when inserting, live ones when querying. */
  ghost function Eligible(g: Graph, liveOnly: bool): set<nat> {
    set n | n in Nodes(|g|) && (!liveOnly || !g[n].deleted)
  }

  /** Greedy walks from layer `from` down to the layer above `to`. */
  ghost function Descend(config: Config, view: View, g: Graph, entry: nat, from: nat, to: nat): (r: nat)
    requires DistinctIds(view) && |view| == |g| && GraphOk(config, g) && OnLayer(g, entry, from)
    ensures OnLayer(g, r, Least(from, to))
    decreases from
  {
    if from <= to then entry else
      GreedyOnLayer(config, view, g, entry, from);
      Descend(config, view, g, Greedy(view, Layer(g, from), entry), from - 1, to)
  }

  lemma GreedyOnLayer(config: Config, view: View, g: Graph, entry: nat, c: nat)
    requires DistinctIds(view) && |view| == |g| && GraphOk(config, g) && OnLayer(g, entry, c)
    ensures ClosedLinks(Layer(g, c)) && OnLayer(g, Greedy(view, Layer(g, c), entry), c)
  {
    LayerIsClosed(config, g, c);
    GreedyIsLocalOptimum(view, Layer(g, c), entry);
    ReachableOnLayer(config, g, c, entry);
  }

  // ---------- Connection plan ----------

  ghost function Candidates(config: Config, view: View, g: Graph, entry: nat, c: nat): (r: seq<nat>)
    requires ValidConfig(config) && DistinctIds(view) && |view| == |g| && GraphOk(config, g)
    requires OnLayer(g, entry, c)
    ensures Ordered(view, r) && r != [] && AllOnLayer(g, c, r)
  {
    LayerIsClosed(config, g, c);
    ReachableOnLayer(config, g, c, entry);
    var r := Search(view, Layer(g, c), Eligible(g, false), entry, config.efConstruction);
    SearchCount(view, Layer(g, c), Eligible(g, false), entry, config.efConstruction);
    ReachesItself(Layer(g, c), entry);
    assert entry in Answerable(Layer(g, c), Eligible(g, false), entry);
    assert forall i :: 0 <= i < |r| ==> r[i] in Elements(r);
    r
  }

  /** The lists a new node gets on layers `0..c`. */
  ghost predicate PlanOk(config: Config, g: Graph, plan: seq<seq<nat>>) {
    forall d :: 0 <= d < |plan| ==>
      Distinct(plan[d]) && AllOnLayer(g, d, plan[d]) && |plan[d]| <= MaximumConnections(config, d)
  }

  /** Neighbours for layers `c` down to 0; each layer's best candidate is the next layer's entry. */
  ghost function Plan(x: Context, view: View, g: Graph, entry: nat, c: nat): (plan: seq<seq<nat>>)
    requires ValidConfig(x.config) && Coherent(x, g) && GraphOk(x.config, g)
    requires DistinctIds(view) && |view| == |g| && OnLayer(g, entry, c)
    ensures |plan| == c + 1 && PlanOk(x.config, g, plan)
    decreases c
  {
    var candidates := Candidates(x.config, view, g, entry, c);
    var chosen := Select(x.platform, x.config.selection, x.vectors, view, candidates,
                         MaximumConnections(x.config, c));
    SelectIsSubset(x.platform, x.config.selection, x.vectors, view, candidates,
                   MaximumConnections(x.config, c));
    SubsetOnLayer(g, c, candidates, chosen);
    if c == 0 then [chosen] else
      var lower := Plan(x, view, g, candidates[0], c - 1);
      PlanGrows(x.config, g, lower, chosen);
      lower + [chosen]
  }

  lemma PlanGrows(config: Config, g: Graph, lower: seq<seq<nat>>, chosen: seq<nat>)
    requires PlanOk(config, g, lower)
    requires Distinct(chosen) && AllOnLayer(g, |lower|, chosen) && |chosen| <= MaximumConnections(config, |lower|)
    ensures PlanOk(config, g, lower + [chosen])
  {
  }

  lemma SubsetOnLayer(g: Graph, c: nat, all: seq<nat>, some: seq<nat>)
    requires AllOnLayer(g, c, all) && forall m :: m in some ==> m in all
    ensures AllOnLayer(g, c, some)
  {
    forall i | 0 <= i < |some| ensures OnLayer(g, some[i], c) {
      assert some[i] in all;
    }
  }

  // ---------- Linking all layers ----------

  /** Layers below `c` are linked; layers `c..top` hold the new node's planned lists. */
  ghost predicate Ready(config: Config, g: Graph, n: nat, c: nat, top: nat) {
    forall d :: ReadyAt(config, g, n, c, top, d)
  }

  ghost predicate ReadyAt(config: Config, g: Graph, n: nat, c: nat, top: nat, d: nat) {
    Linking(config, g, n, d, Outstanding(g, n, c, top, d))
  }

  ghost function Outstanding(g: Graph, n: nat, c: nat, top: nat, d: nat): seq<nat> {
    if c <= d <= top then Neighbours(g, n, d) else []
  }

  ghost function LinkLayers(x: Context, g: Graph, n: nat, c: nat, top: nat): (h: Graph)
    requires Coherent(x, g) && c <= top + 1 && Ready(x.config, g, n, c, top)
    ensures SameShape(g, h)
    ensures forall d :: LayerOk(x.config, h, d)
    decreases top + 1 - c
  {
    if c == top + 1 then
      LinkedIsOk(x.config, g, n, top);
      g
    else
      LinkLayerStep(x, g, n, c, top);
      LinkLayers(x, Link(x, g, n, c, Neighbours(g, n, c)), n, c + 1, top)
  }

  lemma LinkLayerStep(x: Context, g: Graph, n: nat, c: nat, top: nat)
    requires Coherent(x, g) && c <= top && Ready(x.config, g, n, c, top)
    ensures Linking(x.config, g, n, c, Neighbours(g, n, c))
    ensures Ready(x.config, Link(x, g, n, c, Neighbours(g, n, c)), n, c + 1, top)
  {
    assert ReadyAt(x.config, g, n, c, top, c);
    var h := Link(x, g, n, c, Neighbours(g, n, c));
    var next := c + 1;
    forall d: nat ensures ReadyAt(x.config, h, n, next, top, d) {
      if d != c {
        assert ReadyAt(x.config, g, n, c, top, d);
        LinkingElsewhere(x.config, g, h, c, n, d, Outstanding(g, n, c, top, d));
      }
    }
  }

  lemma LinkLayersUnfold(x: Context, g: Graph, n: nat, c: nat, top: nat)
    requires Coherent(x, g) && c <= top + 1 && Ready(x.config, g, n, c, top)
    ensures c == top + 1 ==> LinkLayers(x, g, n, c, top) == g
    ensures c <= top ==>
      && Linking(x.config, g, n, c, Neighbours(g, n, c))
      && Ready(x.config, Link(x, g, n, c, Neighbours(g, n, c)), n, c + 1, top)
      && LinkLayers(x, g, n, c, top) == LinkLayers(x, Link(x, g, n, c, Neighbours(g, n, c)), n, c + 1, top)
  {
    if c <= top {
      LinkLayerStep(x, g, n, c, top);
    }
  }

  lemma {:induction false} LayersAddNoOldEdge(x: Context, g: Graph, n: nat, c: nat, top: nat, d: nat, a: nat, b: nat)
    requires Coherent(x, g) && c <= top + 1 && Ready(x.config, g, n, c, top)
    requires b != n && Edge(LinkLayers(x, g, n, c, top), d, a, b)
    ensures Edge(g, d, a, b)
    decreases top + 1 - c
  {
    LinkLayersUnfold(x, g, n, c, top);
    if c <= top {
      var h := Link(x, g, n, c, Neighbours(g, n, c));
      LayersAddNoOldEdge(x, h, n, c + 1, top, d, a, b);
      if d == c {
        LinkAddsNoOldEdge(x, g, n, c, Neighbours(g, n, c), a, b);
      }
    }
  }

  lemma LinkedIsOk(config: Config, g: Graph, n: nat, top: nat)
    requires Ready(config, g, n, top + 1, top)
    ensures forall d :: LayerOk(config, g, d)
  {
    forall d: nat ensures LayerOk(config, g, d) {
      assert ReadyAt(config, g, n, top + 1, top, d);
    }
  }

  lemma LinkingElsewhere(config: Config, g: Graph, h: Graph, c: nat, n: nat, d: nat, rest: seq<nat>)
    requires SameShape(g, h) && SameElsewhere(g, h, c) && d != c
    requires Linking(config, g, n, d, rest)
    ensures Linking(config, h, n, d, rest)
    ensures Neighbours(h, n, d) == Neighbours(g, n, d)
  {
    forall a ensures GoodList(h, d, a) {
      assert GoodList(g, d, a);
    }
    assert forall a, b :: Edge(h, d, a, b) <==> Edge(g, d, a, b);
  }

  // ---------- Insertion ----------

  function ContextOf(config: Config, p: Platform, s: State): Context {
    Context(config, p, s.ids, s.vectors)
  }

  function NewLevel(p: Platform, random: Rng): (level: nat)
    ensures level <= MAXIMUM_GENERATED_LEVEL
  {
    Least(p.drawLevel(random), MAXIMUM_GENERATED_LEVEL)
  }

  /** The adjacency lists of a new node of the given level, before it is linked. */
  ghost function NewLists(config: Config, p: Platform, s: State, v: Vector, level: nat): (lists: seq<seq<nat>>)
    requires Valid(config, p, s) && s.graph != []
    ensures |lists| == level + 1 && PlanOk(config, s.graph, lists)
    ensures forall d :: Least(level, s.maxLevel) < d < |lists| ==> lists[d] == []
  {
    IdsAreDistinct(s.ids, s.idToNode);
    var view := ViewOf(p, s.ids, s.vectors, v);
    var entry := Descend(config, view, s.graph, s.entryPoint, s.maxLevel, level);
    var plan := Plan(ContextOf(config, p, s), view, s.graph, entry, Least(level, s.maxLevel));
    PlanPads(config, s.graph, plan, level + 1 - |plan|);
    plan + NoLists(level + 1 - |plan|)
  }

  function NoLists(k: nat): (r: seq<seq<nat>>)
    ensures |r| == k && forall i :: 0 <= i < k ==> r[i] == []
  {
    seq(k, _ => [])
  }

  lemma PlanPads(config: Config, g: Graph, plan: seq<seq<nat>>, k: nat)
    requires PlanOk(config, g, plan)
    ensures PlanOk(config, g, plan + NoLists(k))
  {
  }

  ghost predicate Insertable(config: Config, p: Platform, s: State, id: VectorId, v: Vector) {
    Valid(config, p, s) && id !in s.idToNode && |s.ids| < UINT32_MAX && VectorOk(config, p, v)
  }

  /** A graph with a new node whose lists are planned is ready for linking, layer by layer. */
  lemma AppendedIsReady(config: Config, g: Graph, lists: seq<seq<nat>>, top: nat)
    requires GraphOk(config, g) && PlanOk(config, g, lists)
    requires forall d :: top < d < |lists| ==> lists[d] == []
    ensures Ready(config, g + [Node(lists, false)], |g|, 0, top)
  {
    var h, n := g + [Node(lists, false)], |g|;
    forall d: nat ensures ReadyAt(config, h, n, 0, top, d) {
      AppendedLayer(config, g, lists, d);
      assert d > top ==> Neighbours(h, n, d) == [];
    }
  }

  lemma AppendedLayer(config: Config, g: Graph, lists: seq<seq<nat>>, d: nat)
    requires LayerOk(config, g, d) && PlanOk(config, g, lists)
    ensures var h := g + [Node(lists, false)];
            Linking(config, h, |g|, d, Neighbours(h, |g|, d))
  {
    var n := |g|;
    var h := g + [Node(lists, false)];
    forall a ensures GoodList(h, d, a) && |Neighbours(h, a, d)| <= MaximumConnections(config, d) {
      assert GoodList(g, d, a);
      if a == n && d < |lists| {
        assert AllOnLayer(g, d, lists[d]);
      }
    }
    forall b | b in Neighbours(h, n, d) ensures !Edge(h, d, b, n) {
      assert AllOnLayer(g, d, lists[d]);
      assert GoodList(g, d, b);
    }
  }

  /** The graph with the new node appended but not linked back. */
  ghost function AppendedGraph(config: Config, p: Platform, s: State, v: Vector, level: nat): Graph
    requires Valid(config, p, s) && s.graph != []
  {
    s.graph + [Node(NewLists(config, p, s, v, level), false)]
  }

  lemma ReadyToLink(config: Config, p: Platform, s: State, id: VectorId, v: Vector, level: nat)
    requires Insertable(config, p, s, id, v) && s.graph != []
    ensures var g := AppendedGraph(config, p, s, v, level);
            && Coherent(Context(config, p, s.ids + [id], s.vectors + [v]), g)
            && Ready(config, g, |s.ids|, 0, Least(level, s.maxLevel))
  {
    IdsAreDistinct(s.ids, s.idToNode);
    IdsGrow(s.ids, s.idToNode, id);
    IdsAreDistinct(s.ids + [id], s.idToNode[id := |s.ids|]);
    AppendedIsReady(config, s.graph, NewLists(config, p, s, v, level), Least(level, s.maxLevel));
  }

  lemma IdsGrow(ids: seq<VectorId>, idToNode: map<VectorId, nat>, id: VectorId)
    requires IdsOk(ids, idToNode) && id !in idToNode
    ensures IdsOk(ids + [id], idToNode[id := |ids|])
  {
  }

  /** The graph once the new node is linked on every layer it shares with the others: its lists are
      distinct, on their layer and within the degree limit. */
  ghost function LinkedGraph(config: Config, p: Platform, s: State, id: VectorId, v: Vector, level: nat): (h: Graph)
    requires Insertable(config, p, s, id, v) && s.graph != []
    ensures SameShape(AppendedGraph(config, p, s, v, level), h)
    ensures forall c :: LayerOk(config, h, c)
  {
    ReadyToLink(config, p, s, id, v, level);
    LinkLayers(Context(config, p, s.ids + [id], s.vectors + [v]), AppendedGraph(config, p, s, v, level),
               |s.ids|, 0, Least(level, s.maxLevel))
  }

  /** `insert_normalized` after a level was drawn, when nothing fails. */
  ghost function InsertedAt(config: Config, p: Platform, s: State, id: VectorId, v: Vector, level: nat): State
    requires Insertable(config, p, s, id, v)
  {
    var first := s.graph == [];
    s.(vectors := s.vectors + [v],
       ids := s.ids + [id],
       graph := if first then [Node(NoLists(level + 1), false)] else LinkedGraph(config, p, s, id, v, level),
       idToNode := s.idToNode[id := |s.ids|],
       entryPoint := if first || level > s.maxLevel then |s.ids| else s.entryPoint,
       maxLevel := if first || level > s.maxLevel then level else s.maxLevel)
  }

  /** `insert_normalized`, when nothing fails. */
  ghost function Inserted(config: Config, p: Platform, s: State, id: VectorId, v: Vector): State
    requires Insertable(config, p, s, id, v)
  {
    InsertedAt(config, p, s.(random := p.advance(s.random)), id, v, NewLevel(p, s.random))
  }

  /** What insertion appends, and what it leaves alone. */
  lemma InsertedFields(config: Config, p: Platform, s: State, id: VectorId, v: Vector)
    requires Insertable(config, p, s, id, v)
    ensures var r := Inserted(config, p, s, id, v);
            && r.ids == s.ids + [id] && r.vectors == s.vectors + [v]
            && r.idToNode == s.idToNode[id := |s.ids|]
            && r.random == p.advance(s.random) && r.deletedCount == s.deletedCount
  {
  }

  /** Every new link has the new node at one end: insertion can only remove links between old nodes. */
  lemma InsertedAddsNoOldEdge(config: Config, p: Platform, s: State, id: VectorId, v: Vector, c: nat, a: nat, b: nat)
    requires Insertable(config, p, s, id, v)
    requires a < |s.ids| && b < |s.ids| && Edge(Inserted(config, p, s, id, v).graph, c, a, b)
    ensures Edge(s.graph, c, a, b)
  {
    if s.graph != [] {
      var s' := s.(random := p.advance(s.random));
      var level := NewLevel(p, s.random);
      ReadyToLink(config, p, s', id, v, level);
      var g := AppendedGraph(config, p, s', v, level);
      LayersAddNoOldEdge(Context(config, p, s.ids + [id], s.vectors + [v]), g, |s.ids|, 0,
                         Least(level, s.maxLevel), c, a, b);
    }
  }

  lemma FirstGraph(config: Config, lists: seq<seq<nat>>)
    requires forall i :: 0 <= i < |lists| ==> lists[i] == []
    ensures forall c :: LayerOk(config, [Node(lists, false)], c)
    ensures Tombstones([Node(lists, false)]) == {} == Tombstones([])
  {
  }

  /** Level counts are in order, the entry point is on top and no tombstone has changed. */
  ghost predicate ShapeOk(s: State, g: Graph, entry: nat, maxLevel: nat) {
    && (forall n :: 0 <= n < |g| ==> 1 <= |g[n].levels| <= MAXIMUM_GENERATED_LEVEL + 1)
    && EntryOk(g, entry, maxLevel)
    && Tombstones(g) == Tombstones(s.graph)
  }

  lemma GrownShape(config: Config, s: State, lists: seq<seq<nat>>, g: Graph)
    requires GraphOk(config, s.graph) && EntryOk(s.graph, s.entryPoint, s.maxLevel) && |s.graph| > 0
    requires SameShape(s.graph + [Node(lists, false)], g)
    requires 1 <= |lists| <= MAXIMUM_GENERATED_LEVEL + 1
    ensures if |lists| - 1 > s.maxLevel then ShapeOk(s, g, |s.graph|, |lists| - 1)
            else ShapeOk(s, g, s.entryPoint, s.maxLevel)
  {
    var a := s.graph + [Node(lists, false)];
    assert forall n :: 0 <= n < |s.graph| ==> a[n] == s.graph[n];
  }

  /** Insertion keeps the invariant: links stay distinct, within degree limits and on their layer,
      the entry point stays on the top level, the ID map stays the inverse of the ID array. */
  lemma InsertedIsValid(config: Config, p: Platform, s: State, id: VectorId, v: Vector)
    requires Insertable(config, p, s, id, v)
    ensures Valid(config, p, Inserted(config, p, s, id, v))
  {
    InsertedAtIsValid(config, p, s.(random := p.advance(s.random)), id, v, NewLevel(p, s.random));
  }

  lemma InsertedAtIsValid(config: Config, p: Platform, s: State, id: VectorId, v: Vector, level: nat)
    requires Insertable(config, p, s, id, v) && level <= MAXIMUM_GENERATED_LEVEL
    ensures Valid(config, p, InsertedAt(config, p, s, id, v, level))
  {
    var r := InsertedAt(config, p, s, id, v, level);
    if s.graph == [] {
      FirstGraph(config, NoLists(level + 1));
    } else {
      GrownShape(config, s, NewLists(config, p, s, v, level), LinkedGraph(config, p, s, id, v, level));
    }
    Assemble(config, p, s, id, v, r);
  }

  lemma Assemble(config: Config, p: Platform, s: State, id: VectorId, v: Vector, r: State)
    requires Insertable(config, p, s, id, v)
    requires r.ids == s.ids + [id] && r.vectors == s.vectors + [v]
    requires r.idToNode == s.idToNode[id := |s.ids|] && r.deletedCount == s.deletedCount
    requires |r.graph| == |s.graph| + 1 && ShapeOk(s, r.graph, r.entryPoint, r.maxLevel)
    requires forall c :: LayerOk(config, r.graph, c)
    ensures Valid(config, p, r)
  {
  }
}
