/** Links in both directions: linking a new node is asymmetric midway and restores symmetry, erasing does
    not touch links, and rebuilding gives a symmetric graph whatever it starts from. */
module MutualLinks {
  import opened Numbers
  import opened Ranking
  import opened Configuration
  import opened GraphLinks
  import opened HnswState
  import opened HnswOperations

  /** Every link has its reverse, except those of `n` to the nodes in `rest`. */
  ghost predicate HalfLinked(g: Graph, n: nat, c: nat, rest: seq<nat>) {
    forall a, b :: Edge(g, c, a, b) ==> Edge(g, c, b, a) || (a == n && b in rest)
  }

  /** Linking one neighbour back: whatever pruning takes away, it takes away in both directions. */
  lemma LinkStepKeeps(x: Context, g: Graph, n: nat, c: nat, rest: seq<nat>)
    requires Coherent(x, g) && Linking(x.config, g, n, c, rest) && rest != [] && HalfLinked(g, n, c, rest)
    ensures OnLayer(g, rest[0], c) && GoodList(AddReverse(g, n, c, rest[0]), c, rest[0])
    ensures HalfLinked(Prune(x, AddReverse(g, n, c, rest[0]), rest[0], c), n, c, rest[1..])
  {
    var m := rest[0];
    LinkStep(x, g, n, c, rest);
    var g1 := AddReverse(g, n, c, m);
    assert m in rest && GoodList(g, c, n) && GoodList(g, c, m);
    PruneEdges(x, g1, m, c);
    EdgesStayPaired(g, g1, Prune(x, g1, m, c), n, c, m, rest);
  }

  lemma EdgesStayPaired(g: Graph, g1: Graph, h: Graph, n: nat, c: nat, m: nat, rest: seq<nat>)
    requires rest != [] && rest[0] == m && m != n && Edge(g, c, n, m)
    requires HalfLinked(g, n, c, rest)
    requires forall a, b :: Edge(g1, c, a, b) <==> Edge(g, c, a, b) || (a == m && b == n)
    requires forall a, b :: Edge(h, c, a, b) <==>
               Edge(g1, c, a, b) && !(a == m && Dropped(g1, h, c, m, b)) && !(b == m && Dropped(g1, h, c, m, a))
    ensures HalfLinked(h, n, c, rest[1..])
  {
  }

  lemma {:induction false} LinkIsSymmetric(x: Context, g: Graph, n: nat, c: nat, rest: seq<nat>)
    requires Coherent(x, g) && Linking(x.config, g, n, c, rest) && HalfLinked(g, n, c, rest)
    ensures Symmetric(Link(x, g, n, c, rest), c)
    decreases |rest|
  {
    if rest != [] {
      LinkStep(x, g, n, c, rest);
      LinkStepKeeps(x, g, n, c, rest);
      LinkIsSymmetric(x, Prune(x, AddReverse(g, n, c, rest[0]), rest[0], c), n, c, rest[1..]);
    }
  }

  /** Layers below `c` are symmetric; layers `c..top` lack the links back to the new node. */
  ghost predicate HalfReady(g: Graph, n: nat, c: nat, top: nat) {
    forall d :: HalfLinked(g, n, d, Outstanding(g, n, c, top, d))
  }

  lemma {:induction false} LinkLayersIsMutual(x: Context, g: Graph, n: nat, c: nat, top: nat)
    requires Coherent(x, g) && c <= top + 1 && Ready(x.config, g, n, c, top) && HalfReady(g, n, c, top)
    ensures Mutual(LinkLayers(x, g, n, c, top))
    decreases top + 1 - c
  {
    hide LinkLayers, Ready;
    LinkLayersUnfold(x, g, n, c, top);
    if c == top + 1 {
      forall d: nat ensures Symmetric(g, d) {
        assert HalfLinked(g, n, d, Outstanding(g, n, c, top, d));
      }
    } else {
      var h := Link(x, g, n, c, Neighbours(g, n, c));
      LayerLinked(x, g, n, c, top, h);
      LinkLayersIsMutual(x, h, n, c + 1, top);
    }
  }

  lemma LayerLinked(x: Context, g: Graph, n: nat, c: nat, top: nat, h: Graph)
    requires Coherent(x, g) && c <= top && Linking(x.config, g, n, c, Neighbours(g, n, c)) && HalfReady(g, n, c, top)
    requires h == Link(x, g, n, c, Neighbours(g, n, c))
    ensures HalfReady(h, n, c + 1, top)
  {
    hide Link;
    var next := c + 1;
    forall d: nat ensures HalfLinked(h, n, d, Outstanding(h, n, next, top, d)) {
      assert HalfLinked(g, n, d, Outstanding(g, n, c, top, d));
      if d == c {
        LinkIsSymmetric(x, g, n, c, Neighbours(g, n, c));
      } else {
        assert forall a: nat, b: nat :: Edge(h, d, a, b) <==> Edge(g, d, a, b);
      }
    }
  }

  lemma AppendedIsHalfReady(config: Config, g: Graph, lists: seq<seq<nat>>, top: nat)
    requires GraphOk(config, g) && Mutual(g) && PlanOk(config, g, lists)
    requires forall d :: top < d < |lists| ==> lists[d] == []
    ensures HalfReady(g + [Node(lists, false)], |g|, 0, top)
  {
    var h, n := g + [Node(lists, false)], |g|;
    forall d: nat ensures HalfLinked(h, n, d, Outstanding(h, n, 0, top, d)) {
      assert Symmetric(g, d) && LayerOk(config, g, d);
      forall a: nat, b: nat | Edge(h, d, a, b)
        ensures Edge(h, d, b, a) || (a == n && b in Outstanding(h, n, 0, top, d))
      {
        if a < n {
          assert GoodList(g, d, a);
          assert Edge(g, d, a, b);
        }
      }
    }
  }

  /** Insertion keeps links symmetric, although pruning may unlink the node being inserted. */
  lemma InsertedIsMutual(config: Config, p: Platform, s: State, id: VectorId, v: Vector)
    requires Insertable(config, p, s, id, v) && Mutual(s.graph)
    ensures Mutual(Inserted(config, p, s, id, v).graph)
  {
    var s', level := s.(random := p.advance(s.random)), NewLevel(p, s.random);
    if s.graph == [] {
      var lists := NoLists(level + 1);
      assert forall a, c: nat :: Neighbours([Node(lists, false)], a, c) == [];
    } else {
      var top := Least(level, s.maxLevel);
      ReadyToLink(config, p, s', id, v, level);
      AppendedIsHalfReady(config, s.graph, NewLists(config, p, s', v, level), top);
      LinkLayersIsMutual(Context(config, p, s.ids + [id], s.vectors + [v]), AppendedGraph(config, p, s', v, level),
                         |s.ids|, 0, top);
    }
  }

  /** Deletion keeps links symmetric. */
  lemma ErasedIsMutual(s: State, id: VectorId)
    requires Mutual(s.graph)
    ensures Mutual(Erased(s, id).graph)
  {
    var g, h := s.graph, Erased(s, id).graph;
    assert forall a, d: nat :: Neighbours(h, a, d) == Neighbours(g, a, d);
    forall c: nat ensures Symmetric(h, c) {
      assert Symmetric(g, c);
      assert forall a: nat, b: nat :: Edge(h, c, a, b) <==> Edge(g, c, a, b);
    }
  }

  lemma {:induction false} CopyFromIsMutual(config: Config, p: Platform, s: State, all: seq<VectorId>, k: nat, r: State)
    requires CanCopy(config, p, s, all) && k <= |all| && Copied(config, p, s, all, k, r) && Mutual(r.graph)
    ensures Mutual(CopyFrom(config, p, s, all, k, r).graph)
    decreases |all| - k
  {
    hide Copied, CopyFrom, Mutual, Inserted;
    CopyFromUnfolds(config, p, s, all, k, r);
    if k < |all| {
      NextIsInsertable(config, p, s, all, k, r);
      InsertedIsMutual(config, p, r, all[k], Stored(s, all[k]));
      CopyFromIsMutual(config, p, s, all, k + 1, CopyNext(config, p, s, all, k, r));
    }
  }

  /** Rebuilding repairs one-way links: its result is symmetric whatever index it starts from. */
  lemma RebuiltIsMutual(config: Config, p: Platform, s: State, seed: nat)
    requires Valid(config, p, s) && seed <= UINT64_MAX
    ensures Mutual(Rebuilt(config, p, s, seed).graph)
  {
    ReadyToCopy(config, p, s, seed);
    assert forall a, c: nat :: Neighbours([], a, c) == [];
    hide CanCopy, Copied, CopyFrom, Valid;
    CopyFromIsMutual(config.(randomSeed := seed), p, s, LiveIds(s), 0, Empty(p.seeded(seed)));
  }

  lemma ApplyIsMutual(config: Config, p: Platform, s: State, op: Operation)
    requires Valid(config, p, s) && (Mutual(s.graph) || (op.Rebuild? && op.seed <= UINT64_MAX))
    ensures Mutual(Apply(config, p, s, op).1.graph)
  {
    hide Valid, Mutual, Erased, Inserted, Rebuilt, Insertable;
    match op
    case Add(id, vector) =>
      if Accepts(config, p, s, id, vector) {
        InsertedIsMutual(config, p, s, id, p.normalize(vector).vector);
      }
    case Erase(id) => ErasedIsMutual(s, id);
    case Rebuild(seed) =>
      if seed <= UINT64_MAX { RebuiltIsMutual(config, p, s, seed); }
  }

  /** Every run from a symmetric index, in particular from an empty one, keeps links symmetric. */
  lemma {:induction false} RunKeepsMutual(config: Config, p: Platform, s: State, ops: seq<Operation>)
    requires Valid(config, p, s) && Mutual(s.graph)
    ensures Mutual(Run(config, p, s, ops).1.graph)
    decreases |ops|
  {
    hide Valid, Mutual, Apply;
    if ops != [] {
      ApplyIsValid(config, p, s, ops[0]);
      ApplyIsMutual(config, p, s, ops[0]);
      var (c, t) := Apply(config, p, s, ops[0]);
      RunKeepsMutual(c, p, t, ops[1..]);
    }
  }

  /** After a rebuild links are symmetric again, and stay so. */
  lemma RunRepairs(config: Config, p: Platform, s: State, before: seq<Operation>, seed: nat, after: seq<Operation>)
    requires Valid(config, p, s) && seed <= UINT64_MAX
    ensures Mutual(Run(config, p, s, before + [Rebuild(seed)] + after).1.graph)
    decreases |before|
  {
    hide Valid, Mutual, Apply;
    var all := before + [Rebuild(seed)] + after;
    ApplyIsValid(config, p, s, all[0]);
    var (c, t) := Apply(config, p, s, all[0]);
    if before == [] {
      assert all[1..] == after;
      ApplyIsMutual(config, p, s, all[0]);
      RunKeepsMutual(c, p, t, after);
    } else {
      assert all[1..] == before[1..] + [Rebuild(seed)] + after;
      RunRepairs(c, p, t, before[1..], seed, after);
    }
  }

  /** The whole invariant of indexes that were only ever grown. */
  ghost predicate Intact(config: Config, p: Platform, s: State) {
    Valid(config, p, s) && Mutual(s.graph)
  }

  /** Every index grown from an empty one has it. */
  lemma GrownIsIntact(config: Config, p: Platform, ops: seq<Operation>)
    requires ValidConfig(config)
    ensures var (c, s) := Grown(config, p, ops); Intact(c, p, s)
  {
    var start := Empty(p.seeded(config.randomSeed));
    EmptyIsValid(config, p, p.seeded(config.randomSeed));
    assert forall a, c: nat :: Neighbours(start.graph, a, c) == [];
    RunKeepsMutual(config, p, start, ops);
  }
}
