/** What layer 0 keeps apart: neither additions nor deletions ever join it again. */
module Separation {
  import opened Ranking
  import opened Reachability
  import opened LayerSearch
  import opened Configuration
  import opened NeighborSelection
  import opened GraphLinks
  import opened HnswState
  import opened HnswOperations
  import opened MutualLinks
  import opened InsertionPlan
  import opened EntryPath
  import opened Connectivity

  /** No link of layer 0 leads into `side` or out of it. */
  ghost predicate Divided(g: Graph, side: set<nat>) {
    forall a: nat, b: nat :: Edge(g, 0, a, b) ==> (a in side <==> b in side)
  }

  /** Two sides agree on the first `n` nodes. */
  ghost predicate SameBelow(side: set<nat>, other: set<nat>, n: nat) {
    forall a: nat :: a < n ==> (a in side <==> a in other)
  }

  // ---------- Where a new node's neighbours come from ----------

  /** All candidates for the links of one layer are reached from the node where the layer was entered. */
  lemma CandidatesAreReached(config: Config, view: View, g: Graph, entry: nat, c: nat)
    requires ValidConfig(config) && DistinctIds(view) && |view| == |g| && GraphOk(config, g) && OnLayer(g, entry, c)
    ensures forall b: nat :: b in Candidates(config, view, g, entry, c) ==> b in ReachableSet(Layer(g, c), entry)
  {
    LayerIsClosed(config, g, c);
    SearchCount(view, Layer(g, c), Eligible(g, false), entry, config.efConstruction);
    var r := Candidates(config, view, g, entry, c);
    hide Search, LayerOk;
    assert forall b: nat :: b in r ==> b in Elements(r);
  }

  /** The layer-0 list of a new node of any level is selected from the candidates found from some node. */
  lemma BaseListIsSelected(config: Config, p: Platform, s: State, v: Vector) returns (e: nat)
    requires Valid(config, p, s) && s.graph != []
    ensures |s.ids| == |s.vectors| == |s.graph| && Distinct(s.ids) && OnLayer(s.graph, e, 0) && GraphOk(config, s.graph)
    ensures var view := ViewOf(p, s.ids, s.vectors, v);
            PlannedList(config, p, s, v, 0)
            == Select(p, config.selection, s.vectors, view, Candidates(config, view, s.graph, e, 0),
                      2 * config.maxConnections)
  {
    hide Valid, Candidates, Select, GraphOk, PlannedList, Lands, TakenFrom, DistinctIds, Coherent, ViewOf, Distinct;
    InsertionStarts(config, p, s, v);
    var view, x := ViewOf(p, s.ids, s.vectors, v), ContextOf(config, p, s);
    var way, entries := InsertionFollowsSearches(config, p, s, v);
    e := entries[0 + 1];
    TakenIsSelected(x, view, s.graph, entries[0 + 1], entries[0], PlannedList(config, p, s, v, 0));
  }

  lemma TakenIsSelected(x: Context, view: View, g: Graph, entry: nat, best: nat, list: seq<nat>)
    requires ValidConfig(x.config) && Coherent(x, g) && GraphOk(x.config, g) && DistinctIds(view)
    requires TakenFrom(x, view, g, 0, entry, best, list)
    ensures OnLayer(g, entry, 0) && Distinct(x.ids)
    ensures list == Select(x.platform, x.config.selection, x.vectors, view, Candidates(x.config, view, g, entry, 0),
                           2 * x.config.maxConnections)
  {
    CandidatesAreFound(x.config, view, g, entry, 0);
  }

  /** Every link that insertion adds is one the new node was planned to have, or its reverse. */
  lemma InsertedLinksAsPlanned(config: Config, p: Platform, s: State, id: VectorId, v: Vector, a: nat, b: nat)
    requires Insertable(config, p, s, id, v) && s.graph != [] && Edge(Inserted(config, p, s, id, v).graph, 0, a, b)
    ensures var n, list := |s.ids|, PlannedList(config, p, s, v, 0);
            Edge(s.graph, 0, a, b) || (a == n && b in list) || (b == n && a in list)
  {
    InsertedLayer(config, p, s, id, v, 0);
    var x, g := Context(config, p, s.ids + [id], s.vectors + [v]), Planned(config, p, s, v);
    var n, list := |s.ids|, PlannedList(config, p, s, v, 0);
    hide Valid, Inserted, PlannedList, Planned, Linking, Link;
    assert Edge(Link(x, g, n, 0, list), 0, a, b);
    if b == n {
      LinkBackAsPlanned(x, g, n, 0, list, a);
    } else {
      LinkAddsNoOldEdge(x, g, n, 0, list, a, b);
    }
  }

  // ---------- One insertion ----------

  /** All that one node reaches is on its side. */
  lemma ReachesOwnSide(g: Graph, side: set<nat>, e: nat)
    requires Divided(g, side) && e < |g| && ClosedLinks(Layer(g, 0))
    ensures forall b: nat :: b in ReachableSet(Layer(g, 0), e) ==> (b in side <==> e in side)
  {
    var same := set n | n in Nodes(|g|) && (n in side <==> e in side);
    forall v, w | v in same && v < |g| && w in Layer(g, 0)[v] ensures w in same {
      assert Edge(g, 0, v, w);
    }
    ClosureContainsReachable(Layer(g, 0), e, same);
  }

  /** All neighbours planned for a new node are on one side. */
  lemma BaseListIsOneSided(config: Config, p: Platform, s: State, v: Vector, side: set<nat>) returns (e: nat)
    requires Valid(config, p, s) && s.graph != [] && Divided(s.graph, side)
    ensures forall b: nat :: b in PlannedList(config, p, s, v, 0) ==> (b in side <==> e in side)
  {
    e := BaseListIsSelected(config, p, s, v);
    var view := ViewOf(p, s.ids, s.vectors, v);
    LayerIsClosed(config, s.graph, 0);
    hide LayerOk, Select, Candidates, Divided, PlannedList, Valid;
    CandidatesAreReached(config, view, s.graph, e, 0);
    ReachesOwnSide(s.graph, side, e);
    SelectIsSubset(p, config.selection, s.vectors, view, Candidates(config, view, s.graph, e, 0),
                   2 * config.maxConnections);
  }

  /** The side a new node joins, where `e` is a node like its neighbours. */
  ghost function Joined(side: set<nat>, n: nat, e: nat): set<nat> {
    if e in side then side + {n} else side - {n}
  }

  ghost predicate InRangeOf(g: Graph, n: nat) {
    forall a: nat, b: nat :: Edge(g, 0, a, b) ==> a < n && b < n
  }

  lemma OneMoreIsDivided(g: Graph, h: Graph, n: nat, list: seq<nat>, side: set<nat>, e: nat)
    requires Divided(g, side) && InRangeOf(g, n)
    requires forall b: nat :: b in list ==> b < n && (b in side <==> e in side)
    requires forall a: nat, b: nat :: Edge(h, 0, a, b) ==>
               Edge(g, 0, a, b) || (a == n && b in list) || (b == n && a in list)
    ensures Divided(h, Joined(side, n, e))
  {
    hide Edge;
  }

  /** Inserting any vector at any level leaves apart what layer 0 keeps apart: the new node joins one side. */
  lemma InsertedStaysDivided(config: Config, p: Platform, s: State, id: VectorId, v: Vector, side: set<nat>)
    returns (other: set<nat>)
    requires Insertable(config, p, s, id, v) && Divided(s.graph, side)
    ensures SameBelow(side, other, |s.graph|) && Divided(Inserted(config, p, s, id, v).graph, other)
  {
    hide Valid, Inserted, PlannedList, Divided, Edge;
    if s.graph == [] {
      other := side;
      FirstIsDivided(config, p, s, id, v, side);
    } else {
      var e := BaseListIsOneSided(config, p, s, v, side);
      PlannedListFacts(config, p, s, v, 0);
      ValidLengths(config, p, s);
      EdgesInRange(config, p, s);
      other := Joined(side, |s.graph|, e);
      forall a: nat, b: nat | Edge(Inserted(config, p, s, id, v).graph, 0, a, b)
        ensures var n, list := |s.graph|, PlannedList(config, p, s, v, 0);
                Edge(s.graph, 0, a, b) || (a == n && b in list) || (b == n && a in list)
      {
        InsertedLinksAsPlanned(config, p, s, id, v, a, b);
      }
      OneMoreIsDivided(s.graph, Inserted(config, p, s, id, v).graph, |s.graph|, PlannedList(config, p, s, v, 0), side,
                       e);
    }
  }

  lemma FirstIsDivided(config: Config, p: Platform, s: State, id: VectorId, v: Vector, side: set<nat>)
    requires Insertable(config, p, s, id, v) && s.graph == []
    ensures Divided(Inserted(config, p, s, id, v).graph, side)
  {
    assert forall a: nat :: Neighbours(Inserted(config, p, s, id, v).graph, a, 0) == [];
  }

  lemma EdgesInRange(config: Config, p: Platform, s: State)
    requires Valid(config, p, s)
    ensures InRangeOf(s.graph, |s.graph|)
  {
    forall a: nat, b: nat | Edge(s.graph, 0, a, b) ensures a < |s.graph| && b < |s.graph| {
      assert LayerOk(config, s.graph, 0) && GoodList(s.graph, 0, a);
    }
  }

  // ---------- Runs ----------

  ghost predicate NoRebuild(ops: seq<Operation>) {
    forall i :: 0 <= i < |ops| ==> !ops[i].Rebuild?
  }

  lemma ErasedStaysDivided(s: State, id: VectorId, side: set<nat>)
    requires Divided(s.graph, side)
    ensures |Erased(s, id).graph| == |s.graph| && Divided(Erased(s, id).graph, side)
  {
    assert forall a: nat :: Neighbours(Erased(s, id).graph, a, 0) == Neighbours(s.graph, a, 0);
    assert forall a: nat, b: nat :: Edge(Erased(s, id).graph, 0, a, b) <==> Edge(s.graph, 0, a, b);
  }

  lemma ApplyStaysDivided(config: Config, p: Platform, s: State, op: Operation, side: set<nat>)
    returns (other: set<nat>)
    requires Valid(config, p, s) && Divided(s.graph, side) && !op.Rebuild?
    ensures var t := Apply(config, p, s, op).1;
            |t.graph| >= |s.graph| && SameBelow(side, other, |s.graph|) && Divided(t.graph, other)
  {
    hide Valid, Erased, Inserted, Insertable, Divided;
    other := side;
    match op
    case Add(id, vector) =>
      if Accepts(config, p, s, id, vector) {
        var v := p.normalize(vector).vector;
        other := InsertedStaysDivided(config, p, s, id, v, side);
        InsertedIsLonger(config, p, s, id, v);
      }
    case Erase(id) => ErasedStaysDivided(s, id, side);
  }

  lemma InsertedIsLonger(config: Config, p: Platform, s: State, id: VectorId, v: Vector)
    requires Insertable(config, p, s, id, v)
    ensures |Inserted(config, p, s, id, v).graph| == |s.graph| + 1
  {
    InsertedIsValid(config, p, s, id, v);
    InsertedFields(config, p, s, id, v);
    ValidLengths(config, p, s);
    ValidLengths(config, p, Inserted(config, p, s, id, v));
  }

  /** Whatever is added and erased, layer 0 keeps apart what it kept apart before. */
  lemma {:induction false} RunStaysDivided(config: Config, p: Platform, s: State, ops: seq<Operation>, side: set<nat>)
    returns (other: set<nat>)
    requires Valid(config, p, s) && Divided(s.graph, side) && NoRebuild(ops)
    ensures var t := Run(config, p, s, ops).1;
            |t.graph| >= |s.graph| && SameBelow(side, other, |s.graph|) && Divided(t.graph, other)
    decreases |ops|
  {
    hide Valid, Divided, Apply;
    if ops == [] {
      other := side;
    } else {
      var next := ApplyStaysDivided(config, p, s, ops[0], side);
      ApplyIsValid(config, p, s, ops[0]);
      var (c, t) := Apply(config, p, s, ops[0]);
      other := RunStaysDivided(c, p, t, ops[1..], next);
    }
  }

  /** What a node reaches in a symmetric graph is divided from the rest. */
  lemma ReachIsDivided(config: Config, p: Platform, s: State, a: nat)
    requires Intact(config, p, s) && a < |s.graph|
    ensures Divided(s.graph, ReachableSet(Layer(s.graph, 0), a))
  {
    var side := ReachableSet(Layer(s.graph, 0), a);
    BaseIsClosed(config, p, s);
    EdgesInRange(config, p, s);
    hide Valid;
    assert Symmetric(s.graph, 0);
    forall v: nat, w: nat | Edge(s.graph, 0, v, w) ensures v in side <==> w in side {
      assert Edge(s.graph, 0, w, v);
      if v in side {
        ReachesNeighbour(Layer(s.graph, 0), a, v, w);
      }
      if w in side {
        ReachesNeighbour(Layer(s.graph, 0), a, w, v);
      }
    }
  }

  /** A node that layer 0 cannot reach from another stays unreachable from it, whatever is added and erased:
      lost reachability comes back only through a rebuild. */
  lemma LostStaysLost(config: Config, p: Platform, s: State, ops: seq<Operation>, a: nat, b: nat)
    requires Intact(config, p, s) && NoRebuild(ops) && a < |s.graph| && b < |s.graph|
    requires b !in ReachableSet(Layer(s.graph, 0), a)
    ensures var (c, t) := Run(config, p, s, ops);
            |t.graph| >= |s.graph| && b !in ReachableSet(Layer(t.graph, 0), a)
  {
    var side := ReachableSet(Layer(s.graph, 0), a);
    ReachIsDivided(config, p, s, a);
    ReachesItself(Layer(s.graph, 0), a);
    var other := RunStaysDivided(config, p, s, ops, side);
    RunKeepsInvariant(config, p, s, ops);
    var (c, t) := Run(config, p, s, ops);
    BaseIsClosed(c, p, t);
    hide Valid, Mutual, Run;
    ReachesOwnSide(t.graph, other, a);
  }
}
