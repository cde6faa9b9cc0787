/** The way from the entry point down to the layer where a query or an insertion begins its search. */
module EntryPath {
  import opened Numbers
  import opened Ranking
  import opened Reachability
  import opened LayerSearch
  import opened GreedyDescent
  import opened Configuration
  import opened GraphLinks
  import opened HnswState
  import opened HnswOperations

  /** One layer of the way: a walk to the best neighbour each time, until none ranks higher. */
  ghost predicate Lands(view: View, links: Links, a: nat, b: nat) {
    && WalksTo(view, links, a, b)
    && a < |view| && b in ReachableSet(links, a) && Unbeaten(view, links, b)
    && (b == a || Better(view[b], view[a]))
  }

  /** `way[l]` is the node where layer `l` is entered; the walk on that layer ends at `way[l - 1]`. */
  ghost predicate LeadsDown(view: View, g: Graph, way: seq<nat>, from: nat, to: nat) {
    && |way| == from + 1
    && forall l :: to < l <= from ==> Lands(view, Layer(g, l), way[l], way[l - 1])
  }

  lemma GreedyLands(view: View, links: Links, a: nat)
    requires Searchable(view, links) && a < |view|
    ensures Lands(view, links, a, Greedy(view, links, a))
  {
    GreedyIsLocalOptimum(view, links, a);
    GreedyIsSteepest(view, links, a);
    hide Greedy, WalksTo, ReachableSet, Better;
  }

  /** The descent takes a greedy walk on every layer from the highest down to the one above its target. */
  lemma {:induction false} DescendLeadsDown(config: Config, view: View, g: Graph, entry: nat, from: nat, to: nat)
    returns (way: seq<nat>)
    requires DistinctIds(view) && |view| == |g| && GraphOk(config, g) && OnLayer(g, entry, from)
    ensures LeadsDown(view, g, way, from, to) && way[from] == entry
    ensures way[Least(from, to)] == Descend(config, view, g, entry, from, to)
    decreases from
  {
    hide Greedy, Lands, GraphOk, Layer, DistinctIds, Descend, ClosedLinks;
    DescendUnfolds(config, view, g, entry, from, to);
    if from <= to {
      way := seq(from + 1, _ => entry);
    } else {
      var next := Greedy(view, Layer(g, from), entry);
      var rest := DescendLeadsDown(config, view, g, next, from - 1, to);
      way := rest + [entry];
      forall l | to < l <= from ensures Lands(view, Layer(g, l), way[l], way[l - 1]) {
        if l < from {
          assert Lands(view, Layer(g, l), rest[l], rest[l - 1]);
        }
      }
    }
  }

  lemma DescendUnfolds(config: Config, view: View, g: Graph, entry: nat, from: nat, to: nat)
    requires DistinctIds(view) && |view| == |g| && GraphOk(config, g) && OnLayer(g, entry, from)
    ensures from <= to ==> Descend(config, view, g, entry, from, to) == entry
    ensures from > to ==>
      && Searchable(view, Layer(g, from))
      && var next := Greedy(view, Layer(g, from), entry);
         && OnLayer(g, next, from - 1) && Lands(view, Layer(g, from), entry, next)
         && Descend(config, view, g, entry, from, to) == Descend(config, view, g, next, from - 1, to)
  {
    if from > to {
      GreedyOnLayer(config, view, g, entry, from);
      GreedyLands(view, Layer(g, from), entry);
      hide Greedy, Lands, Layer, GraphOk;
    }
  }

  lemma StepOfWay(view: View, g: Graph, way: seq<nat>, from: nat, to: nat, l: nat)
    requires LeadsDown(view, g, way, from, to) && to <= l < from
    ensures WalksTo(view, Layer(g, l + 1), way[l + 1], way[l])
  {
    hide WalksTo, Layer;
    assert Lands(view, Layer(g, l + 1), way[l + 1], way[l + 1 - 1]);
  }

  /** There is only one way down. */
  lemma {:induction false} OneWayDown(view: View, g: Graph, v: seq<nat>, w: seq<nat>, from: nat, to: nat, l: nat)
    requires LeadsDown(view, g, v, from, to) && LeadsDown(view, g, w, from, to) && v[from] == w[from]
    requires to <= l <= from
    ensures v[l] == w[l]
    decreases from - l
  {
    hide Lands, WalksTo, Layer;
    if l < from {
      OneWayDown(view, g, v, w, from, to, l + 1);
      StepOfWay(view, g, v, from, to, l);
      StepOfWay(view, g, w, from, to, l);
      WalkEndsOnce(view, Layer(g, l + 1), v[l + 1], v[l], w[l]);
    }
  }

  /** Where a query enters layer 0: the end of the way down from the entry point, and of no other. */
  lemma BaseEntryIsLedTo(config: Config, p: Platform, s: State, q: Vector) returns (way: seq<nat>)
    requires Valid(config, p, s) && s.graph != []
    ensures |s.ids| == |s.vectors|
    ensures var view := ViewOf(p, s.ids, s.vectors, q);
            && LeadsDown(view, s.graph, way, s.maxLevel, 0)
            && way[s.maxLevel] == s.entryPoint && way[0] == BaseEntry(config, p, s, q)
            && forall w :: LeadsDown(view, s.graph, w, s.maxLevel, 0) && w[s.maxLevel] == s.entryPoint
                 ==> w[0] == BaseEntry(config, p, s, q)
  {
    IdsAreDistinct(s.ids, s.idToNode);
    var view := ViewOf(p, s.ids, s.vectors, q);
    way := DescendLeadsDown(config, view, s.graph, s.entryPoint, s.maxLevel, 0);
    hide Valid, LeadsDown, Descend, ViewOf;
    forall w | LeadsDown(view, s.graph, w, s.maxLevel, 0) && w[s.maxLevel] == s.entryPoint
      ensures w[0] == way[0]
    {
      OneWayDown(view, s.graph, w, way, s.maxLevel, 0, 0);
    }
  }
}
