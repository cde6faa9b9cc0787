/** Layered adjacency lists, degree pruning and the linking of a new node, with the exact effect of
    each on the edge relation. */
module GraphLinks {
  import opened Numbers
  import opened Ranking
  import opened Configuration
  import opened NeighborSelection

  datatype Node = Node(levels: seq<seq<nat>>, deleted: bool)
  type Graph = seq<Node>

  /** What pruning consults besides the graph. */
  datatype Context = Context(config: Config, platform: Platform, ids: seq<VectorId>, vectors: seq<Vector>)

  ghost predicate Coherent(x: Context, g: Graph) {
    |x.ids| == |x.vectors| == |g| && Distinct(x.ids)
  }

  predicate OnLayer(g: Graph, n: nat, c: nat) {
    n < |g| && c < |g[n].levels|
  }

  function Neighbours(g: Graph, n: nat, c: nat): seq<nat> {
    if OnLayer(g, n, c) then g[n].levels[c] else []
  }

  ghost predicate AllOnLayer(g: Graph, c: nat, list: seq<nat>) {
    forall i :: 0 <= i < |list| ==> OnLayer(g, list[i], c)
  }

  function SetNeighbours(g: Graph, n: nat, c: nat, list: seq<nat>): (h: Graph)
    requires OnLayer(g, n, c)
    ensures SameShape(g, h)
    ensures forall a, d :: OnLayer(h, a, d) <==> OnLayer(g, a, d)
    ensures forall a, d :: Neighbours(h, a, d) == if a == n && d == c then list else Neighbours(g, a, d)
  {
    g[n := g[n].(levels := g[n].levels[c := list])]
  }

  /** Same nodes, same levels, same tombstones; only adjacency lists may differ. */
  ghost predicate SameShape(g: Graph, h: Graph) {
    && |g| == |h|
    && forall n :: 0 <= n < |g| ==> |h[n].levels| == |g[n].levels| && h[n].deleted == g[n].deleted
  }

  ghost predicate SameElsewhere(g: Graph, h: Graph, c: nat) {
    forall n, d: nat :: d != c ==> Neighbours(h, n, d) == Neighbours(g, n, d)
  }

  ghost predicate Edge(g: Graph, c: nat, a: nat, b: nat) {
    b in Neighbours(g, a, c)
  }

  /** `std::erase(list, n)`. */
  function Without(list: seq<nat>, n: nat): (r: seq<nat>)
    ensures |r| <= |list|
    ensures forall x :: x in r <==> x in list && x != n
    ensures Distinct(list) ==> Distinct(r)
  {
    if list == [] then [] else
      var rest := Without(list[1..], n);
      assert list == [list[0]] + list[1..];
      assert Distinct(list) ==> Distinct(list[1..]) && list[0] !in list[1..];
      if list[0] == n then rest else [list[0]] + rest
  }

  /** Nodes of `list` that were not selected forget their link to `owner`. */
  function DropReverse(g: Graph, c: nat, owner: nat, list: seq<nat>, selected: seq<nat>): (h: Graph)
    requires AllOnLayer(g, c, list)
    ensures SameShape(g, h) && SameElsewhere(g, h, c)
    ensures forall a, d :: OnLayer(h, a, d) <==> OnLayer(g, a, d)
    decreases |list|
  {
    if list == [] then g else
      DropReverse(DropOne(g, c, owner, list[0], selected), c, owner, list[1..], selected)
  }

  function DropOne(g: Graph, c: nat, owner: nat, m: nat, selected: seq<nat>): (h: Graph)
    requires OnLayer(g, m, c)
    ensures SameShape(g, h) && SameElsewhere(g, h, c)
    ensures forall a, d :: OnLayer(h, a, d) <==> OnLayer(g, a, d)
  {
    if m in selected then g else SetNeighbours(g, m, c, Without(Neighbours(g, m, c), owner))
  }

  /** Which neighbours survive when `owner`'s list is over its limit. */
  function Survivors(x: Context, g: Graph, owner: nat, c: nat): (r: seq<nat>)
    requires Coherent(x, g) && OnLayer(g, owner, c) && ListPresent(g, c, owner)
    ensures forall i :: 0 <= i < |r| ==> r[i] < |g|
  {
    var view := ViewOf(x.platform, x.ids, x.vectors, x.vectors[owner]);
    Select(x.platform, x.config.selection, x.vectors, view, Sort(view, g[owner].levels[c]),
           MaximumConnections(x.config, c))
  }

  /** `prune_neighbors` */
  function Prune(x: Context, g: Graph, owner: nat, c: nat): (h: Graph)
    requires Coherent(x, g) && OnLayer(g, owner, c) && ListPresent(g, c, owner)
    ensures SameShape(g, h) && SameElsewhere(g, h, c)
    ensures forall a, d :: OnLayer(h, a, d) <==> OnLayer(g, a, d)
  {
    var list := g[owner].levels[c];
    if |list| <= MaximumConnections(x.config, c) then g else
      var selected := Survivors(x, g, owner, c);
      SetNeighbours(DropReverse(g, c, owner, list, selected), owner, c, selected)
  }

  ghost predicate ListPresent(g: Graph, c: nat, a: nat) {
    AllOnLayer(g, c, Neighbours(g, a, c))
  }

  /** An adjacency list is well formed: no duplicates, no self-loop, all neighbours on the layer. */
  ghost predicate GoodList(g: Graph, c: nat, a: nat) {
    && Distinct(Neighbours(g, a, c))
    && a !in Neighbours(g, a, c)
    && ListPresent(g, c, a)
  }

  ghost predicate Symmetric(g: Graph, c: nat) {
    forall a, b :: Edge(g, c, a, b) ==> Edge(g, c, b, a)
  }

  /** All links have their reverse. Growing an index keeps this, but nothing checks it of a stored one. */
  ghost predicate Mutual(g: Graph) {
    forall c :: Symmetric(g, c)
  }

  /** The invariant of one layer. */
  ghost predicate LayerOk(config: Config, g: Graph, c: nat) {
    && (forall a :: GoodList(g, c, a))
    && (forall a :: |Neighbours(g, a, c)| <= MaximumConnections(config, c))
  }

  // ---------- Pruning ----------

  lemma {:induction false} DropReverseLists(g: Graph, c: nat, owner: nat, list: seq<nat>, selected: seq<nat>, a: nat)
    requires AllOnLayer(g, c, list) && Distinct(list)
    ensures Neighbours(DropReverse(g, c, owner, list, selected), a, c)
         == if a in list && a !in selected then Without(Neighbours(g, a, c), owner) else Neighbours(g, a, c)
    decreases |list|
  {
    if list != [] {
      assert list == [list[0]] + list[1..];
      DropReverseLists(DropOne(g, c, owner, list[0], selected), c, owner, list[1..], selected, a);
      assert list[0] !in list[1..];
    }
  }

  /** The lists after pruning: the owner's is its selection, and every neighbour that was not
      selected has lost its link to the owner. */
  ghost function PrunedList(x: Context, g: Graph, owner: nat, c: nat, a: nat): seq<nat>
    requires Coherent(x, g) && OnLayer(g, owner, c) && ListPresent(g, c, owner)
  {
    var list := Neighbours(g, owner, c);
    if |list| <= MaximumConnections(x.config, c) then Neighbours(g, a, c)
    else if a == owner then Survivors(x, g, owner, c)
    else if a in list && a !in Survivors(x, g, owner, c) then Without(Neighbours(g, a, c), owner)
    else Neighbours(g, a, c)
  }

  lemma PruneLists(x: Context, g: Graph, owner: nat, c: nat, a: nat)
    requires Coherent(x, g) && OnLayer(g, owner, c) && GoodList(g, c, owner)
    ensures Neighbours(Prune(x, g, owner, c), a, c) == PrunedList(x, g, owner, c, a)
  {
    var list := Neighbours(g, owner, c);
    if |list| > MaximumConnections(x.config, c) {
      DropReverseLists(g, c, owner, list, Survivors(x, g, owner, c), a);
    }
  }

  lemma SurvivorsAreNeighbours(x: Context, g: Graph, owner: nat, c: nat)
    requires Coherent(x, g) && OnLayer(g, owner, c) && GoodList(g, c, owner)
    ensures var list, r := Neighbours(g, owner, c), Survivors(x, g, owner, c);
            && Distinct(r)
            && (forall b :: b in r ==> b in list)
            && |r| == Least(MaximumConnections(x.config, c), |list|)
  {
    var view := ViewOf(x.platform, x.ids, x.vectors, x.vectors[owner]);
    SelectIsSubset(x.platform, x.config.selection, x.vectors, view, Sort(view, Neighbours(g, owner, c)),
                   MaximumConnections(x.config, c));
  }

  /** `owner` had `b` as a neighbour before the pruning and has not afterwards. */
  ghost predicate Dropped(g: Graph, h: Graph, c: nat, owner: nat, b: nat) {
    Edge(g, c, owner, b) && !Edge(h, c, owner, b)
  }

  /** The exact effect of pruning: the owner keeps as many links as allowed, and a link it gives up
      disappears in both directions; no other edge changes. */
  lemma PruneEdges(x: Context, g: Graph, owner: nat, c: nat)
    requires Coherent(x, g) && OnLayer(g, owner, c) && GoodList(g, c, owner)
    ensures var h := Prune(x, g, owner, c);
            && |Neighbours(h, owner, c)| == Least(MaximumConnections(x.config, c), |Neighbours(g, owner, c)|)
            && (forall a, b :: Edge(h, c, a, b) <==>
                  Edge(g, c, a, b) && !(a == owner && Dropped(g, h, c, owner, b))
                                   && !(b == owner && Dropped(g, h, c, owner, a)))
  {
    var h := Prune(x, g, owner, c);
    SurvivorsAreNeighbours(x, g, owner, c);
    PruneLists(x, g, owner, c, owner);
    forall a, b ensures Edge(h, c, a, b) <==>
                  Edge(g, c, a, b) && !(a == owner && Dropped(g, h, c, owner, b))
                                   && !(b == owner && Dropped(g, h, c, owner, a))
    {
      PruneLists(x, g, owner, c, a);
    }
  }

  /** Which links pruning keeps, ranked by similarity to the owner. The nearest-neighbour rule drops none that ranks
      above one it keeps; the diversity rule keeps a diverse choice. A list within its limit stays as it is. */
  lemma PruneFollowsStrategy(x: Context, g: Graph, owner: nat, c: nat)
    requires Coherent(x, g) && OnLayer(g, owner, c) && GoodList(g, c, owner)
    ensures var view := ViewOf(x.platform, x.ids, x.vectors, x.vectors[owner]);
            var list, kept := Neighbours(g, owner, c), Neighbours(Prune(x, g, owner, c), owner, c);
            && (|list| <= MaximumConnections(x.config, c) ==> Prune(x, g, owner, c) == g)
            && (|list| > MaximumConnections(x.config, c) ==>
                  match x.config.selection
                  case Simple =>
                    && Ordered(view, kept)
                    && forall b, d :: b in kept && d in list && d !in kept && d < |view| ==> Better(view[b], view[d])
                  case Heuristic =>
                    exists j :: DiverseChoice(x.platform, x.vectors, view, list, kept, j))
  {
    var view := ViewOf(x.platform, x.ids, x.vectors, x.vectors[owner]);
    var list, kept := Neighbours(g, owner, c), Neighbours(Prune(x, g, owner, c), owner, c);
    PruneLists(x, g, owner, c, owner);
    if |list| > MaximumConnections(x.config, c) {
      var candidates := Sort(view, list);
      assert kept == Select(x.platform, x.config.selection, x.vectors, view, candidates,
                            MaximumConnections(x.config, c));
      if x.config.selection == Heuristic {
        var j := HeuristicIsDiverse(x.platform, x.vectors, view, candidates, MaximumConnections(x.config, c));
        SameCandidates(x.platform, x.vectors, view, candidates, list, kept, j);
      } else {
        OrderedPart(view, candidates, MaximumConnections(x.config, c));
      }
    }
  }

  lemma OrderedPart(view: View, q: seq<nat>, n: nat)
    requires Ordered(view, q) && n <= |q|
    ensures Ordered(view, q[..n])
    ensures forall b, d :: b in q[..n] && d in q && d !in q[..n] && d < |view| ==> Better(view[b], view[d])
  {
    forall b, d | b in q[..n] && d in q && d !in q[..n] && d < |view| ensures Better(view[b], view[d]) {
      LeftOutRanksBelow(view, q, n, b, d);
    }
  }

  /** A choice depends on the set of candidates only. */
  lemma SameCandidates(p: Platform, vectors: seq<Vector>, view: View, all: seq<nat>, list: seq<nat>,
                       r: seq<nat>, j: nat)
    requires DiverseChoice(p, vectors, view, all, r, j) && InRange(view, list) && forall x :: x in list <==> x in all
    ensures DiverseChoice(p, vectors, view, list, r, j)
  {
    hide Cause, PairwiseDiverse, Better;
    forall i | 0 <= i < |list| ensures exists l :: 0 <= l < |all| && all[l] == list[i] {
      assert list[i] in list && list[i] in all;
    }
  }

  /** Pruning leaves every list well formed and no longer than it was. */
  lemma PruneKeepsLists(x: Context, g: Graph, owner: nat, c: nat, a: nat)
    requires Coherent(x, g) && OnLayer(g, owner, c) && GoodList(g, c, owner) && GoodList(g, c, a)
    ensures var h := Prune(x, g, owner, c);
            GoodList(h, c, a) && |Neighbours(h, a, c)| <= |Neighbours(g, a, c)|
  {
    SurvivorsAreNeighbours(x, g, owner, c);
    PruneLists(x, g, owner, c, a);
    var h := Prune(x, g, owner, c);
    forall i | 0 <= i < |Neighbours(h, a, c)| ensures OnLayer(h, Neighbours(h, a, c)[i], c) {
      var b := Neighbours(h, a, c)[i];
      assert b in Neighbours(h, a, c);
      assert b in Neighbours(g, a, c);
    }
  }

  // ---------- Linking a new node ----------

  function AddReverse(g: Graph, n: nat, c: nat, m: nat): (h: Graph)
    requires OnLayer(g, m, c)
    ensures SameShape(g, h) && SameElsewhere(g, h, c)
    ensures forall a, d :: OnLayer(h, a, d) <==> OnLayer(g, a, d)
  {
    SetNeighbours(g, m, c, Neighbours(g, m, c) + [n])
  }

  /** Layer `c` while node `n` is being linked: it already points at the nodes in `rest`, which do not
      point back yet. */
  ghost predicate Linking(config: Config, g: Graph, n: nat, c: nat, rest: seq<nat>) {
    && LayerOk(config, g, c)
    && Distinct(rest)
    && (forall b :: b in rest ==> Edge(g, c, n, b) && !Edge(g, c, b, n))
  }

  lemma GoodEdge(g: Graph, c: nat, a: nat, b: nat)
    requires GoodList(g, c, a) && Edge(g, c, a, b)
    ensures OnLayer(g, a, c) && OnLayer(g, b, c) && a != b
  {
  }

  lemma AddReverseIsGood(g: Graph, n: nat, c: nat, m: nat, a: nat)
    requires GoodList(g, c, a) && OnLayer(g, m, c) && OnLayer(g, n, c) && m != n && !Edge(g, c, m, n)
    ensures GoodList(AddReverse(g, n, c, m), c, a)
  {
  }

  lemma LinkStepLists(x: Context, g: Graph, n: nat, c: nat, m: nat, a: nat)
    requires Coherent(x, g) && OnLayer(g, m, c) && OnLayer(g, n, c) && m != n && !Edge(g, c, m, n)
    requires GoodList(g, c, m) && GoodList(g, c, a)
    requires |Neighbours(g, a, c)| <= MaximumConnections(x.config, c)
    ensures var g1 := AddReverse(g, n, c, m);
            && GoodList(g1, c, m)
            && GoodList(Prune(x, g1, m, c), c, a)
            && |Neighbours(Prune(x, g1, m, c), a, c)| <= MaximumConnections(x.config, c)
  {
    var g1 := AddReverse(g, n, c, m);
    AddReverseIsGood(g, n, c, m, m);
    AddReverseIsGood(g, n, c, m, a);
    PruneEdges(x, g1, m, c);
    PruneKeepsLists(x, g1, m, c, a);
  }

  /** Linking one neighbour back and pruning its list; pruning may unlink the new node again. */
  lemma LinkStep(x: Context, g: Graph, n: nat, c: nat, rest: seq<nat>)
    requires Coherent(x, g) && Linking(x.config, g, n, c, rest) && rest != []
    ensures OnLayer(g, rest[0], c)
    ensures var g1 := AddReverse(g, n, c, rest[0]);
            && GoodList(g1, c, rest[0])
            && Linking(x.config, Prune(x, g1, rest[0], c), n, c, rest[1..])
  {
    var m := rest[0];
    assert m in rest;
    assert GoodList(g, c, n) && GoodList(g, c, m);
    assert n !in rest;
    GoodEdge(g, c, n, m);
    LinkStepLists(x, g, n, c, m, m);
    var g1 := AddReverse(g, n, c, m);
    var h := Prune(x, g1, m, c);
    PruneEdges(x, g1, m, c);
    LinkStepEdges(g, g1, h, n, c, m, rest);
    forall a ensures GoodList(h, c, a) && |Neighbours(h, a, c)| <= MaximumConnections(x.config, c) {
      LinkStepLists(x, g, n, c, m, a);
    }
  }

  /** The edge bookkeeping of `LinkStep`, from the exact effects of its two halves. */
  lemma LinkStepEdges(g: Graph, g1: Graph, h: Graph, n: nat, c: nat, m: nat, rest: seq<nat>)
    requires rest != [] && rest[0] == m && m !in rest[1..] && m != n && n !in rest
    requires forall b :: b in rest ==> Edge(g, c, n, b) && !Edge(g, c, b, n)
    requires forall a, b :: Edge(g1, c, a, b) <==> Edge(g, c, a, b) || (a == m && b == n)
    requires forall a, b :: Edge(h, c, a, b) <==>
               Edge(g1, c, a, b) && !(a == m && Dropped(g1, h, c, m, b)) && !(b == m && Dropped(g1, h, c, m, a))
    ensures forall b :: b in rest[1..] ==> Edge(h, c, n, b) && !Edge(h, c, b, n)
  {
  }

  /** Give each neighbour of node `n` its link back, pruning that neighbour's list at once. */
  function Link(x: Context, g: Graph, n: nat, c: nat, rest: seq<nat>): (h: Graph)
    requires Coherent(x, g) && Linking(x.config, g, n, c, rest)
    ensures SameShape(g, h) && SameElsewhere(g, h, c)
    ensures Linking(x.config, h, n, c, [])
    decreases |rest|
  {
    if rest == [] then g else
      LinkStep(x, g, n, c, rest);
      Link(x, Prune(x, AddReverse(g, n, c, rest[0]), rest[0], c), n, c, rest[1..])
  }

  lemma LinkUnfolds(x: Context, g: Graph, n: nat, c: nat, rest: seq<nat>)
    requires Coherent(x, g) && Linking(x.config, g, n, c, rest)
    ensures rest == [] ==> Link(x, g, n, c, rest) == g
    ensures rest != [] ==>
      && OnLayer(g, rest[0], c) && OnLayer(g, n, c) && n != rest[0] && !Edge(g, c, rest[0], n)
      && GoodList(AddReverse(g, n, c, rest[0]), c, rest[0])
      && (var h := Prune(x, AddReverse(g, n, c, rest[0]), rest[0], c);
          && Linking(x.config, h, n, c, rest[1..])
          && Link(x, g, n, c, rest) == Link(x, h, n, c, rest[1..]))
  {
    if rest != [] {
      LinkStep(x, g, n, c, rest);
      assert rest[0] in rest && GoodList(g, c, n);
      GoodEdge(g, c, n, rest[0]);
    }
  }

  /** The planned neighbours get their links back one after the other, in the order of the list, and each list is pruned
      before the next neighbour is linked. */
  ghost predicate LinksInOrder(x: Context, steps: seq<Graph>, n: nat, c: nat, list: seq<nat>) {
    && |steps| == |list| + 1
    && forall i :: 0 <= i < |list| ==> LinksNext(x, steps[i], steps[i + 1], n, c, list[i])
  }

  ghost predicate LinksNext(x: Context, g: Graph, h: Graph, n: nat, c: nat, m: nat) {
    && Coherent(x, g) && OnLayer(g, m, c) && ListPresent(AddReverse(g, n, c, m), c, m)
    && h == Prune(x, AddReverse(g, n, c, m), m, c)
  }

  lemma {:induction false} LinkGoesInOrder(x: Context, g: Graph, n: nat, c: nat, list: seq<nat>)
    returns (steps: seq<Graph>)
    requires Coherent(x, g) && Linking(x.config, g, n, c, list)
    ensures LinksInOrder(x, steps, n, c, list) && steps[0] == g && steps[|list|] == Link(x, g, n, c, list)
    decreases |list|
  {
    hide Link, Linking, Prune, LinksNext, AddReverse;
    LinkUnfolds(x, g, n, c, list);
    if list == [] {
      steps := [g];
    } else {
      var h := Prune(x, AddReverse(g, n, c, list[0]), list[0], c);
      FirstIsLinked(x, g, n, c, list);
      var rest := LinkGoesInOrder(x, h, n, c, list[1..]);
      steps := [g] + rest;
      forall i | 0 <= i < |list| ensures LinksNext(x, steps[i], steps[i + 1], n, c, list[i]) {
        if i > 0 {
          assert LinksNext(x, rest[i - 1], rest[i - 1 + 1], n, c, list[1..][i - 1]);
        }
      }
    }
  }

  lemma FirstIsLinked(x: Context, g: Graph, n: nat, c: nat, list: seq<nat>)
    requires Coherent(x, g) && Linking(x.config, g, n, c, list) && list != []
    ensures OnLayer(g, list[0], c) && GoodList(AddReverse(g, n, c, list[0]), c, list[0])
    ensures LinksNext(x, g, Prune(x, AddReverse(g, n, c, list[0]), list[0], c), n, c, list[0])
  {
    hide Link, Linking, Prune;
    LinkUnfolds(x, g, n, c, list);
  }

  /** Linking a new node never creates a link to an old one: neither between old ones nor from the new one. */
  lemma {:induction false} LinkAddsNoOldEdge(x: Context, g: Graph, n: nat, c: nat, rest: seq<nat>, a: nat, b: nat)
    requires Coherent(x, g) && Linking(x.config, g, n, c, rest)
    requires b != n && Edge(Link(x, g, n, c, rest), c, a, b)
    ensures Edge(g, c, a, b)
    decreases |rest|
  {
    hide Link, Prune, Linking, GoodList;
    if rest != [] {
      LinkUnfolds(x, g, n, c, rest);
      var g1 := AddReverse(g, n, c, rest[0]);
      var h := Prune(x, g1, rest[0], c);
      LinkAddsNoOldEdge(x, h, n, c, rest[1..], a, b);
      PruneEdges(x, g1, rest[0], c);
      assert Edge(g1, c, a, b);
    } else {
      LinkUnfolds(x, g, n, c, rest);
    }
  }

  /** The new node gets links only from the nodes it was planned to be linked with. */
  lemma {:induction false} LinkBackAsPlanned(x: Context, g: Graph, n: nat, c: nat, rest: seq<nat>, a: nat)
    requires Coherent(x, g) && Linking(x.config, g, n, c, rest) && Edge(Link(x, g, n, c, rest), c, a, n)
    ensures Edge(g, c, a, n) || a in rest
    decreases |rest|
  {
    if rest != [] {
      LinkStep(x, g, n, c, rest);
      var g1 := AddReverse(g, n, c, rest[0]);
      var h := Prune(x, g1, rest[0], c);
      LinkBackAsPlanned(x, h, n, c, rest[1..], a);
      PruneEdges(x, g1, rest[0], c);
      assert Edge(h, c, a, n) ==> Edge(g1, c, a, n);
    }
  }
}
