/** Beyond the bound of `Connectivity`: one vector far from 2M + 1 similar ones loses all its links when the last
    of them is added. */
module Isolation {
  import opened Numbers
  import opened Ranking
  import opened Reachability
  import opened LayerSearch
  import opened Configuration
  import opened NeighborSelection
  import opened GraphLinks
  import opened HnswState
  import opened HnswOperations
  import opened MutualLinks
  import opened InsertionPlan
  import opened Connectivity
  import opened Separation

  // ---------- Selection drops the worst candidate ----------

  lemma LastIsWorst(view: View, q: seq<nat>, x: nat)
    requires Ordered(view, q) && x in q && x != q[|q| - 1]
    ensures Better(view[x], view[q[|q| - 1]])
  {
    var i :| 0 <= i < |q| && q[i] == x;
  }

  lemma WorstComesLast(view: View, q: seq<nat>, w: nat)
    requires Ordered(view, q) && w in q && w < |view|
    requires forall x :: x in q && x != w ==> Better(view[x], view[w])
    ensures q[|q| - 1] == w
  {
    if q[|q| - 1] != w {
      LastIsWorst(view, q, w);
    }
  }

  /** Of two picks the later one is diverse with respect to the earlier one. */
  lemma PairIsDiverse(p: Platform, vectors: seq<Vector>, view: View, selected: seq<nat>, a: nat, b: nat)
    requires |vectors| == |view| && Ordered(view, selected) && PairwiseDiverse(p, vectors, view, selected)
    requires a in selected && b in selected && Better(view[a], view[b])
    ensures Between(p, vectors, b, a) < view[b].score
  {
    var i :| 0 <= i < |selected| && selected[i] == a;
    var j :| 0 <= j < |selected| && selected[j] == b;
  }

  lemma CauseRanksHigher(p: Platform, vectors: seq<Vector>, view: View, count: nat, selected: seq<nat>, c: nat)
    requires |vectors| == |view| && InRange(view, selected) && c < |view| && count > 0
    requires Cause(p, vectors, view, count, selected, c)
    ensures exists x :: x in selected && Better(view[x], view[c])
  {
    if |selected| == count && forall x :: x in selected ==> Better(view[x], view[c]) {
      assert selected[0] in selected;
    } else {
      var i :| 0 <= i < |selected| && Better(view[selected[i]], view[c]);
      assert selected[i] in selected;
    }
  }

  lemma PickedOrOutranked(p: Platform, vectors: seq<Vector>, view: View, candidates: seq<nat>, count: nat, s: Split,
                          c: nat)
    requires Ordered(view, candidates) && Dividing(p, vectors, view, candidates, count, s)
    requires c in candidates && count > 0
    ensures c in s.selected || exists x :: x in candidates && Better(view[x], view[c])
  {
    if c in s.pruned {
      var i :| 0 <= i < |s.pruned| && s.pruned[i] == c;
      CauseRanksHigher(p, vectors, view, count, s.selected, c);
      var x :| x in s.selected && Better(view[x], view[c]);
      assert x in candidates;
    }
  }

  lemma FirstIsPicked(p: Platform, vectors: seq<Vector>, view: View, candidates: seq<nat>, count: nat, s: Split)
    requires Ordered(view, candidates) && Dividing(p, vectors, view, candidates, count, s)
    requires candidates != [] && count > 0
    ensures candidates[0] in s.selected
  {
    PickedOrOutranked(p, vectors, view, candidates, count, s, candidates[0]);
    forall x | x in candidates ensures !Better(view[x], view[candidates[0]]) {
      OrderedHead(view, candidates, x);
    }
  }

  /** The diversity rule puts the worst candidate last among the rejected, if it is too close to the first. */
  lemma WorstIsRejectedLast(p: Platform, vectors: seq<Vector>, view: View, candidates: seq<nat>, count: nat, s: Split)
    requires Ordered(view, candidates) && |candidates| > 1 && count > 0
    requires Dividing(p, vectors, view, candidates, count, s)
    requires var w := candidates[|candidates| - 1]; Between(p, vectors, w, candidates[0]) >= view[w].score
    ensures var w := candidates[|candidates| - 1]; w !in s.selected && s.pruned != [] && s.pruned[|s.pruned| - 1] == w
    ensures Distinct(s.pruned)
  {
    OrderedIsDistinct(view, s.pruned);
    var w := candidates[|candidates| - 1];
    FirstIsPicked(p, vectors, view, candidates, count, s);
    hide RejectedForCause;
    assert w in candidates && Better(view[candidates[0]], view[w]);
    if w in s.selected {
      PairIsDiverse(p, vectors, view, s.selected, candidates[0], w);
    }
    forall x | x in s.pruned && x != w ensures Better(view[x], view[w]) {
      LastIsWorst(view, candidates, x);
    }
    WorstComesLast(view, s.pruned, w);
  }

  lemma NothingDivided(p: Platform, vectors: seq<Vector>, view: View, count: nat)
    requires |vectors| == |view|
    ensures Dividing(p, vectors, view, [], count, Split([], []))
  {
  }

  /** With one candidate too many, the last one is dropped, provided that the diversity rule would not pick
      it next to the first. */
  lemma SelectDropsWorst(p: Platform, selection: Selection, vectors: seq<Vector>, view: View, candidates: seq<nat>,
                         count: nat)
    requires |vectors| == |view| && Ordered(view, candidates) && |candidates| == count + 1 && count > 0
    requires var w := candidates[count]; Between(p, vectors, w, candidates[0]) >= view[w].score
    ensures candidates[count] !in Select(p, selection, vectors, view, candidates, count)
  {
    hide Better, Between;
    OrderedIsDistinct(view, candidates);
    if selection == Heuristic {
      HeuristicDropsWorst(p, vectors, view, candidates, count);
    }
  }

  lemma HeuristicDropsWorst(p: Platform, vectors: seq<Vector>, view: View, candidates: seq<nat>, count: nat)
    requires |vectors| == |view| && Ordered(view, candidates) && |candidates| == count + 1 && count > 0
    requires var w := candidates[count]; Between(p, vectors, w, candidates[0]) >= view[w].score
    ensures candidates[count] !in Select(p, Heuristic, vectors, view, candidates, count)
  {
    hide Divide, Dividing, Better, Between;
    var s := DivideAll(p, vectors, view, candidates, count);
    NothingDivided(p, vectors, view, count);
    DivideKeeps(p, vectors, view, candidates, [], candidates, count, Split([], []));
    WorstIsRejectedLast(p, vectors, view, candidates, count, s);
    LastIsLeft(s.pruned, count - |s.selected|);
  }

  lemma LastIsLeft(q: seq<nat>, n: nat)
    requires Distinct(q) && n < |q|
    ensures q[|q| - 1] !in q[..n]
  {
  }

  /** All of a set but one element, when as many distinct ones were taken and that one was not. */
  lemma AllButOne(list: seq<nat>, all: set<nat>, w: nat)
    requires Distinct(list) && w !in list && w in all && |list| + 1 == |all|
    requires forall x :: x in list ==> x in all
    ensures forall x :: x in all && x != w ==> x in list
  {
    DistinctCount(list);
    SameSize(Elements(list), all - {w});
    assert forall x :: x in all && x != w ==> x in all - {w};
  }

  // ---------- One far vector among similar ones ----------

  /** `far` is less similar to `near` than `near` to itself. */
  ghost predicate Apart(p: Platform, far: Vector, near: Vector) {
    && p.similarity(near, far) < p.similarity(near, near)
    && p.similarity(near, far) == p.similarity(far, near)
  }

  /** Two vectors apart from each other, as they are stored. */
  ghost predicate StoredApart(config: Config, p: Platform, far: Vector, near: Vector) {
    && VectorOk(config, p, far) && VectorOk(config, p, near)
    && p.normalize(far) == Unit(far) && p.normalize(near) == Unit(near)
    && Apart(p, far, near)
  }

  ghost predicate FarAndNear(vectors: seq<Vector>, far: Vector, near: Vector) {
    |vectors| > 0 && vectors[0] == far && forall n :: 0 < n < |vectors| ==> vectors[n] == near
  }

  /** For every near vector, node 0 ranks last. */
  lemma FarRanksLast(p: Platform, ids: seq<VectorId>, vectors: seq<Vector>, far: Vector, near: Vector, n: nat)
    requires |ids| == |vectors| && FarAndNear(vectors, far, near) && 0 < n < |ids|
    requires Apart(p, far, near)
    ensures var view := ViewOf(p, ids, vectors, near); Better(view[n], view[0])
  {
  }

  /** Node 0 is never picked from a ranking of it and others for a near vector, if one must go. */
  lemma FarIsDropped(p: Platform, selection: Selection, ids: seq<VectorId>, vectors: seq<Vector>, far: Vector,
                     near: Vector, candidates: seq<nat>, count: nat)
    requires |ids| == |vectors| && FarAndNear(vectors, far, near)
    requires Apart(p, far, near)
    requires Ordered(ViewOf(p, ids, vectors, near), candidates) && |candidates| == count + 1 && count > 0
    requires 0 in candidates
    ensures 0 !in Select(p, selection, vectors, ViewOf(p, ids, vectors, near), candidates, count)
  {
    var view := ViewOf(p, ids, vectors, near);
    forall x | x in candidates && x != 0 ensures Better(view[x], view[0]) {
      FarRanksLast(p, ids, vectors, far, near, x);
    }
    WorstComesLast(view, candidates, 0);
    OrderedIsDistinct(view, candidates);
    SelectDropsWorst(p, selection, vectors, view, candidates, count);
  }

  // ---------- The wheel ----------

  /** `k` live vectors under the IDs 0 to k - 1, the first one far. */
  ghost predicate Cluster(config: Config, p: Platform, far: Vector, near: Vector, s: State, k: nat) {
    && Intact(config, p, s) && |s.ids| == k > 0
    && (forall n :: 0 <= n < k ==> s.ids[n] == n)
    && FarAndNear(s.vectors, far, near)
    && s.deletedCount == 0
  }

  /** As many near vectors as a construction search finds and layer 0 can link. */
  function Centre(config: Config): nat {
    Least(config.efConstruction, 2 * config.maxConnections)
  }

  /** Nodes 1 to c are linked with everybody, the others only with them. */
  ghost predicate Wheel(g: Graph, c: nat) {
    forall a: nat, b: nat :: Edge(g, 0, a, b) <==>
      a < |g| && b < |g| && a != b && (1 <= a <= c || 1 <= b <= c)
  }

  /** Near nodes rank in the order of their IDs, and node 0 ranks last. */
  ghost predicate InOrder(view: View) {
    forall a, b :: 1 <= a < |view| && (a < b < |view| || b == 0) ==> Better(view[a], view[b])
  }

  lemma NearInOrder(p: Platform, ids: seq<VectorId>, vectors: seq<Vector>, far: Vector, near: Vector)
    requires |ids| == |vectors| && FarAndNear(vectors, far, near) && Apart(p, far, near)
    requires forall n :: 0 <= n < |ids| ==> ids[n] == n
    ensures InOrder(ViewOf(p, ids, vectors, near))
  {
  }

  lemma WheelIsReached(g: Graph, c: nat, e: nat)
    requires Wheel(g, c) && c > 0 && e < |g| && ClosedLinks(Layer(g, 0))
    ensures Answerable(Layer(g, 0), Eligible(g, false), e) == Nodes(|g|)
  {
    var l := Layer(g, 0);
    ReachesItself(l, e);
    forall b: nat | b < |g| ensures b in ReachableSet(l, e) {
      if b != e {
        assert Edge(g, 0, e, 1) <==> e != 1;
        assert Edge(g, 0, 1, b) <==> b != 1;
        if e != 1 {
          ReachesNeighbour(l, e, e, 1);
        }
        if b != 1 {
          ReachesNeighbour(l, e, 1, b);
        }
      }
    }
  }

  /** A construction search with room for all nodes finds them all. */
  lemma AllFound(view: View, g: Graph, c: nat, e: nat, ef: nat)
    requires DistinctIds(view) && |view| == |g| && ClosedLinks(Layer(g, 0)) && Wheel(g, c) && c > 0
    requires e < |g| <= ef
    ensures var r := Search(view, Layer(g, 0), Eligible(g, false), e, ef);
            |r| == |g| && Distinct(r) && forall n: nat :: n in r <==> n < |g|
  {
    hide Search, Wheel, Eligible;
    WheelIsReached(g, c, e);
    SearchCount(view, Layer(g, 0), Eligible(g, false), e, ef);
    var r := Search(view, Layer(g, 0), Eligible(g, false), e, ef);
    OrderedIsDistinct(view, r);
    DistinctCount(r);
    SameSize(Elements(r), Nodes(|g|));
    assert forall n: nat :: n in r <==> n in Elements(r);
  }

  lemma OnlyEarlierAbove(view: View, x: nat, m: nat)
    requires InOrder(view) && 1 <= m < |view| && x < |view|
    ensures Better(view[x], view[m]) ==> 1 <= x < m
  {
    if x == 0 || x > m {
      assert Better(view[m], view[x]);
    }
  }

  /** Fewer than `m` distinct nodes rank above near node `m`. */
  lemma FewAbove(view: View, r: seq<nat>, m: nat)
    requires InOrder(view) && 1 <= m < |view| && InRange(view, r) && Distinct(r)
    requires forall x :: x in r ==> Better(view[x], view[m])
    ensures |r| < m
  {
    forall x | x in r ensures 1 <= x < m {
      var i :| 0 <= i < |r| && r[i] == x;
      OnlyEarlierAbove(view, x, m);
    }
    DistinctCount(r);
    SubsetSize(Elements(r), Nodes(m) - {0});
  }

  /** A narrower one finds exactly the centre, from wherever it starts: any node it answers with is linked with
      every centre node, and too few nodes rank above one of those. */
  lemma CentreFound(view: View, g: Graph, c: nat, e: nat)
    requires DistinctIds(view) && |view| == |g| && ClosedLinks(Layer(g, 0)) && Wheel(g, c) && InOrder(view)
    requires 0 < c < |g| && e < |g|
    ensures var r := Search(view, Layer(g, 0), Eligible(g, false), e, c);
            |r| == c && Distinct(r) && forall n: nat :: n in r <==> 1 <= n <= c
  {
    hide Search, Wheel, InOrder, Better, Eligible;
    CentreSize(view, g, c, e);
    forall m: nat | 1 <= m <= c ensures m in Search(view, Layer(g, 0), Eligible(g, false), e, c) {
      CentreNodeFound(view, g, c, e, m);
    }
    Exactly(Search(view, Layer(g, 0), Eligible(g, false), e, c), Nodes(c + 1) - {0});
  }

  lemma CentreSize(view: View, g: Graph, c: nat, e: nat)
    requires DistinctIds(view) && |view| == |g| && ClosedLinks(Layer(g, 0)) && Wheel(g, c) && 0 < c < |g| && e < |g|
    ensures var r := Search(view, Layer(g, 0), Eligible(g, false), e, c); |r| == c && Distinct(r)
  {
    hide Search, Wheel, Better, Eligible;
    WheelIsReached(g, c, e);
    SearchCount(view, Layer(g, 0), Eligible(g, false), e, c);
    OrderedIsDistinct(view, Search(view, Layer(g, 0), Eligible(g, false), e, c));
  }

  lemma Exactly(r: seq<nat>, all: set<nat>)
    requires Distinct(r) && |r| == |all| && forall n :: n in all ==> n in r
    ensures forall n: nat :: n in r <==> n in all
  {
    DistinctCount(r);
    SameSize(all, Elements(r));
    assert forall n: nat :: n in r <==> n in Elements(r);
  }

  lemma CentreNodeFound(view: View, g: Graph, c: nat, e: nat, m: nat)
    requires DistinctIds(view) && |view| == |g| && ClosedLinks(Layer(g, 0)) && Wheel(g, c) && InOrder(view)
    requires 0 < c < |g| && e < |g| && 1 <= m <= c
    requires |Search(view, Layer(g, 0), Eligible(g, false), e, c)| == c
    ensures m in Search(view, Layer(g, 0), Eligible(g, false), e, c)
  {
    hide Search, InOrder, Better;
    var r := Search(view, Layer(g, 0), Eligible(g, false), e, c);
    OrderedIsDistinct(view, r);
    var v := r[0];
    assert v in r;
    if v != m {
      assert Edge(g, 0, v, m);
      SearchLocallyOptimal(view, Layer(g, 0), Eligible(g, false), e, c, v, m);
      if forall x :: x in r ==> Better(view[x], view[m]) {
        FewAbove(view, r, m);
      }
    }
  }

  lemma ClusterFacts(config: Config, p: Platform, far: Vector, near: Vector, s: State, k: nat)
    requires Cluster(config, p, far, near, s, k) && StoredApart(config, p, far, near)
    ensures Valid(config, p, s) && |s.ids| == |s.vectors| == |s.graph| == k && Distinct(s.ids)
    ensures ClosedLinks(Layer(s.graph, 0)) && GraphOk(config, s.graph) && Tombstones(s.graph) == {}
    ensures InOrder(ViewOf(p, s.ids, s.vectors, near))
    ensures 0 < config.maxConnections <= Centre(config) <= config.efConstruction && ValidConfig(config)
  {
    IdsAreDistinct(s.ids, s.idToNode);
    LayerIsClosed(config, s.graph, 0);
    NearInOrder(p, s.ids, s.vectors, far, near);
  }

  /** All nodes, or exactly the centre, are the candidates for the links of a new near vector. */
  lemma CandidatesOfNear(config: Config, view: View, g: Graph, e: nat)
    requires ValidConfig(config) && DistinctIds(view) && |view| == |g| && GraphOk(config, g) && OnLayer(g, e, 0)
    requires Wheel(g, Centre(config)) && InOrder(view) && |g| <= 2 * config.maxConnections + 1
    ensures var r, all := Candidates(config, view, g, e, 0), |g| <= config.efConstruction;
            && Distinct(r) && |r| == (if all then |g| else Centre(config))
            && forall n: nat :: n in r <==> if all then n < |g| else 1 <= n <= Centre(config)
  {
    LayerIsClosed(config, g, 0);
    hide LayerOk, Search, Wheel, InOrder;
    if |g| <= config.efConstruction {
      AllFound(view, g, Centre(config), e, config.efConstruction);
    } else {
      CentreFound(view, g, Centre(config), e);
    }
  }

  /** What a new near vector is linked to: everybody while there is room in the centre, and from then on the
      centre; if everybody would be one too many, the far one is left out. */
  lemma BaseListOfNear(config: Config, p: Platform, far: Vector, near: Vector, s: State, k: nat)
    requires Cluster(config, p, far, near, s, k) && Wheel(s.graph, Centre(config)) && StoredApart(config, p, far, near)
    requires k <= 2 * config.maxConnections + 1
    ensures s.graph != []
    ensures var list, c := PlannedList(config, p, s, near, 0), Centre(config);
            forall n: nat :: n in list <==> if k <= c then n < k else 1 <= n <= c
  {
    ClusterFacts(config, p, far, near, s, k);
    ClusterIsNumbered(config, p, far, near, s, k);
    hide Valid, GraphOk, Wheel, InOrder, PlannedList, Candidates, Select, Intact, Cluster, StoredApart, Centre;
    hide FarAndNear, Apart, Numbered, ValidConfig;
    var e := BaseListIsSelected(config, p, s, near);
    var view := ViewOf(p, s.ids, s.vectors, near);
    CandidatesOfNear(config, view, s.graph, e);
    SelectedOfNear(config, p, s.ids, s.vectors, far, near, Candidates(config, view, s.graph, e, 0), k);
  }

  /** Everybody is taken if there is room, otherwise everybody but the far one. */
  lemma SelectedOfNear(config: Config, p: Platform, ids: seq<VectorId>, vectors: seq<Vector>, far: Vector, near: Vector,
                       candidates: seq<nat>, k: nat)
    requires |ids| == |vectors| == k <= 2 * config.maxConnections + 1 && FarAndNear(vectors, far, near)
    requires Apart(p, far, near) && Ordered(ViewOf(p, ids, vectors, near), candidates)
    requires 0 < Centre(config) && Distinct(candidates)
    requires var all := k <= config.efConstruction;
             && |candidates| == (if all then k else Centre(config))
             && forall n: nat :: n in candidates <==> if all then n < k else 1 <= n <= Centre(config)
    ensures var r := Select(p, config.selection, vectors, ViewOf(p, ids, vectors, near), candidates,
                            2 * config.maxConnections);
            forall n: nat :: n in r <==> if k <= Centre(config) then n < k else 1 <= n <= Centre(config)
  {
    hide Select, Better;
    var view, limit := ViewOf(p, ids, vectors, near), 2 * config.maxConnections;
    var r := Select(p, config.selection, vectors, view, candidates, limit);
    SelectIsSubset(p, config.selection, vectors, view, candidates, limit);
    if |candidates| <= limit {
      AllTaken(r, candidates);
    } else {
      FarIsDropped(p, config.selection, ids, vectors, far, near, candidates, limit);
      AllButOne(r, Nodes(k), 0);
    }
  }

  lemma AllTaken(list: seq<nat>, all: seq<nat>)
    requires Distinct(list) && Distinct(all) && |list| == |all| && forall x :: x in list ==> x in all
    ensures forall x :: x in all <==> x in list
  {
    DistinctCount(list);
    DistinctCount(all);
    SameSize(Elements(list), Elements(all));
    assert forall x :: x in all <==> x in Elements(all);
  }

  // ---------- Growing the wheel ----------

  lemma ClusterIsNumbered(config: Config, p: Platform, far: Vector, near: Vector, s: State, k: nat)
    requires Cluster(config, p, far, near, s, k) && StoredApart(config, p, far, near)
    ensures Intact(config, p, s) && Numbered(s, k) && FarAndNear(s.vectors, far, near) && Apart(p, far, near)
    ensures VectorOk(config, p, near) && p.normalize(near) == Unit(near)
  {
    forall id: VectorId ensures id in s.idToNode <==> id < k {
      if id < k {
        assert s.ids[id] in s.idToNode;
      }
    }
  }

  lemma MakeCluster(config: Config, p: Platform, far: Vector, near: Vector, s: State, r: State, k: nat)
    requires Cluster(config, p, far, near, s, k) && Intact(config, p, r)
    requires r.ids == s.ids + [k] && r.vectors == s.vectors + [near] && r.deletedCount == s.deletedCount
    ensures Cluster(config, p, far, near, r, k + 1)
  {
    hide Intact, FarAndNear;
    OneMoreNear(s.vectors, far, near);
  }

  lemma FirstIsCluster(config: Config, p: Platform, far: Vector, near: Vector)
    requires ValidConfig(config) && StoredApart(config, p, far, near)
    ensures var s := Empty(p.seeded(config.randomSeed));
            && Valid(config, p, s) && Accepts(config, p, s, 0, far) && Insertable(config, p, s, 0, far)
            && var r := Inserted(config, p, s, 0, far);
               Cluster(config, p, far, near, r, 1) && Wheel(r.graph, Centre(config))
  {
    hide Valid, Mutual, Inserted;
    var s := Empty(p.seeded(config.randomSeed));
    EmptyIsIntact(config, p, p.seeded(config.randomSeed));
    FirstIsInserted(config, p, far, s);
    WheelOfOne(Inserted(config, p, s, 0, far).graph, Centre(config));
  }

  lemma EmptyIsIntact(config: Config, p: Platform, random: Rng)
    requires ValidConfig(config)
    ensures Intact(config, p, Empty(random))
  {
    EmptyIsValid(config, p, random);
    assert forall a, c: nat :: Neighbours([], a, c) == [];
  }

  lemma WheelOfOne(g: Graph, c: nat)
    requires |g| == 1 && forall a: nat, b: nat :: !Edge(g, 0, a, b)
    ensures Wheel(g, c)
  {
  }

  lemma FirstIsInserted(config: Config, p: Platform, far: Vector, s: State)
    requires Intact(config, p, s) && s.graph == [] && s.ids == [] && s.vectors == [] && s.deletedCount == 0
    requires Insertable(config, p, s, 0, far)
    ensures var r := Inserted(config, p, s, 0, far);
            && Intact(config, p, r) && r.ids == [0] && r.vectors == [far] && r.deletedCount == 0 && |r.graph| == 1
            && forall a: nat, b: nat :: !Edge(r.graph, 0, a, b)
  {
    InsertedIsValid(config, p, s, 0, far);
    InsertedIsMutual(config, p, s, 0, far);
    InsertedFields(config, p, s, 0, far);
    ValidLengths(config, p, Inserted(config, p, s, 0, far));
    hide Valid, Mutual;
    assert forall a: nat :: Neighbours(Inserted(config, p, s, 0, far).graph, a, 0) == [];
  }

  lemma NextIsCluster(config: Config, p: Platform, far: Vector, near: Vector, s: State, k: nat)
    requires Cluster(config, p, far, near, s, k) && StoredApart(config, p, far, near) && k < UINT32_MAX
    ensures Valid(config, p, s) && Accepts(config, p, s, k, near) && Insertable(config, p, s, k, near)
    ensures Cluster(config, p, far, near, Inserted(config, p, s, k, near), k + 1)
  {
    hide Valid, Mutual, Inserted, Numbered, FarAndNear, Cluster, StoredApart, Insertable;
    ClusterIsNumbered(config, p, far, near, s, k);
    NextIsAccepted(config, p, s, near, k);
    assert Insertable(config, p, s, k, near);
    InsertedIsValid(config, p, s, k, near);
    InsertedIsMutual(config, p, s, k, near);
    InsertedFields(config, p, s, k, near);
    MakeCluster(config, p, far, near, s, Inserted(config, p, s, k, near), k);
  }

  lemma OneMoreNear(vectors: seq<Vector>, far: Vector, near: Vector)
    requires FarAndNear(vectors, far, near)
    ensures FarAndNear(vectors + [near], far, near)
  {
  }

  /** The next near vector becomes part of the wheel, whatever its level. */
  lemma NextIsWheel(config: Config, p: Platform, far: Vector, near: Vector, s: State, k: nat)
    requires Cluster(config, p, far, near, s, k) && Wheel(s.graph, Centre(config)) && StoredApart(config, p, far, near)
    requires k <= 2 * config.maxConnections && k < UINT32_MAX
    ensures Insertable(config, p, s, k, near) && Wheel(Inserted(config, p, s, k, near).graph, Centre(config))
  {
    hide Valid, Inserted, PlannedList, Cluster, StoredApart, GraphOk, InOrder, Edge, Insertable, Accepts, Centre;
    NextIsCluster(config, p, far, near, s, k);
    BaseListOfNear(config, p, far, near, s, k);
    ClusterFacts(config, p, far, near, s, k);
    ClusterFacts(config, p, far, near, Inserted(config, p, s, k, near), k + 1);
    PresentAtMost(s.graph, 0);
    var h, c := Inserted(config, p, s, k, near).graph, Centre(config);
    forall a: nat, b: nat
      ensures Edge(h, 0, a, b) <==> a < k + 1 && b < k + 1 && a != b && (1 <= a <= c || 1 <= b <= c)
    {
      InsertedEdges(config, p, s, k, near, 0, a, b);
      assert Edge(s.graph, 0, a, b) <==> a < k && b < k && a != b && (1 <= a <= c || 1 <= b <= c);
    }
  }

  // ---------- The one that is too many ----------

  ghost predicate FullList(g: Graph, a: nat, n: nat) {
    forall b: nat :: Edge(g, 0, a, b) <==> b < n && b != a
  }

  /** Layer 0 while node `n` is linked: the near nodes in `rest` still point at all others but `n`, and nobody
      else is a neighbour of node 0 any more. */
  ghost predicate Shedding(g: Graph, n: nat, rest: seq<nat>) {
    && |g| == n + 1
    && (forall a :: a in rest ==> 0 < a < n && FullList(g, a, n))
    && (forall b: nat :: Edge(g, 0, 0, b) ==> b in rest)
  }

  /** A near node that has one neighbour too many gives up node 0 and no other. */
  lemma ShedsFar(x: Context, g: Graph, m: nat, n: nat, far: Vector, near: Vector)
    requires Coherent(x, g) && OnLayer(g, m, 0) && GoodList(g, 0, m) && 0 < m < n
    requires |g| == n + 1 == 2 * x.config.maxConnections + 2 && x.config.maxConnections > 0
    requires forall b: nat :: Edge(g, 0, m, b) <==> b <= n && b != m
    requires FarAndNear(x.vectors, far, near) && Apart(x.platform, far, near)
    ensures var h := Prune(x, g, m, 0);
            forall b: nat :: Dropped(g, h, 0, m, b) <==> b == 0
  {
    var list := Neighbours(g, m, 0);
    var view := ViewOf(x.platform, x.ids, x.vectors, near);
    assert forall b: nat :: b in list <==> Edge(g, 0, m, b);
    assert Elements(list) == Nodes(n + 1) - {m};
    DistinctCount(list);
    var limit := 2 * x.config.maxConnections;
    var r := Survivors(x, g, m, 0);
    assert r == Select(x.platform, x.config.selection, x.vectors, view, Sort(view, list), limit);
    hide Select;
    FarIsDropped(x.platform, x.config.selection, x.ids, x.vectors, far, near, Sort(view, list), limit);
    SurvivorsAreNeighbours(x, g, m, 0);
    AllButOne(r, Elements(list), 0);
    PruneLists(x, g, m, 0, m);
  }

  lemma ShedStep(x: Context, g: Graph, n: nat, rest: seq<nat>, far: Vector, near: Vector)
    requires Coherent(x, g) && Linking(x.config, g, n, 0, rest) && Shedding(g, n, rest) && rest != []
    requires |g| == 2 * x.config.maxConnections + 2 && x.config.maxConnections > 0
    requires FarAndNear(x.vectors, far, near) && Apart(x.platform, far, near)
    ensures OnLayer(g, rest[0], 0) && GoodList(AddReverse(g, n, 0, rest[0]), 0, rest[0])
    ensures Shedding(Prune(x, AddReverse(g, n, 0, rest[0]), rest[0], 0), n, rest[1..])
  {
    var m := rest[0];
    LinkStep(x, g, n, 0, rest);
    var g1 := AddReverse(g, n, 0, m);
    assert m in rest && m !in rest[1..];
    forall a: nat, b: nat ensures Edge(g1, 0, a, b) <==> Edge(g, 0, a, b) || (a == m && b == n) {
      ReverseEdges(g, n, 0, m, a, b);
    }
    hide Linking, GoodList, AddReverse, Prune, Edge;
    ShedsFar(x, g1, m, n, far, near);
    PruneEdges(x, g1, m, 0);
    StillShedding(g, g1, Prune(x, g1, m, 0), n, m, rest);
  }

  lemma StillShedding(g: Graph, g1: Graph, h: Graph, n: nat, m: nat, rest: seq<nat>)
    requires rest != [] && m == rest[0] && m !in rest[1..] && Shedding(g, n, rest) && |h| == |g|
    requires forall a: nat, b: nat :: Edge(g1, 0, a, b) <==> Edge(g, 0, a, b) || (a == m && b == n)
    requires forall b: nat :: Dropped(g1, h, 0, m, b) <==> b == 0
    requires forall a, b :: Edge(h, 0, a, b) <==>
               Edge(g1, 0, a, b) && !(a == m && Dropped(g1, h, 0, m, b)) && !(b == m && Dropped(g1, h, 0, m, a))
    ensures Shedding(h, n, rest[1..])
  {
    hide Edge, Dropped;
    assert rest == [m] + rest[1..];
    forall a | a in rest[1..] ensures 0 < a < n && FullList(h, a, n) {
      assert a in rest && FullList(g, a, n);
    }
    forall b: nat | Edge(h, 0, 0, b) ensures b in rest[1..] {
      assert Edge(g1, 0, 0, b) && Dropped(g1, h, 0, m, 0);
      assert m in rest;
    }
  }

  lemma {:induction false} Shed(x: Context, g: Graph, n: nat, rest: seq<nat>, far: Vector, near: Vector)
    requires Coherent(x, g) && Linking(x.config, g, n, 0, rest) && Shedding(g, n, rest)
    requires |g| == 2 * x.config.maxConnections + 2 && x.config.maxConnections > 0
    requires FarAndNear(x.vectors, far, near) && Apart(x.platform, far, near)
    ensures forall b: nat :: !Edge(Link(x, g, n, 0, rest), 0, 0, b)
    decreases |rest|
  {
    hide Linking, GoodList, Link, Prune, AddReverse, Edge, FarAndNear;
    LinkUnfolds(x, g, n, 0, rest);
    if rest == [] {
      assert Link(x, g, n, 0, rest) == g;
    } else {
      ShedStep(x, g, n, rest, far, near);
      Shed(x, Prune(x, AddReverse(g, n, 0, rest[0]), rest[0], 0), n, rest[1..], far, near);
    }
  }

  /** The near vector that makes 2M + 2 takes all links of layer 0 from node 0, whatever its level. */
  lemma LastCutsOff(config: Config, p: Platform, far: Vector, near: Vector, s: State, k: nat)
    requires Cluster(config, p, far, near, s, k) && Wheel(s.graph, Centre(config)) && StoredApart(config, p, far, near)
    requires k == 2 * config.maxConnections + 1 < UINT32_MAX
    ensures Insertable(config, p, s, k, near)
    ensures forall b: nat :: !Edge(Inserted(config, p, s, k, near).graph, 0, 0, b)
  {
    hide Valid, Inserted, PlannedList, Planned, Cluster, StoredApart, GraphOk, InOrder, FarAndNear, Linking, Link;
    hide Wheel;
    hide Insertable, Accepts, Coherent, Apart, Numbered, Intact;
    NextIsCluster(config, p, far, near, s, k);
    BaseListOfNear(config, p, far, near, s, k);
    ClusterFacts(config, p, far, near, s, k);
    ClusterIsNumbered(config, p, far, near, s, k);
    InsertedLayer(config, p, s, k, near, 0);
    var x := Context(config, p, s.ids + [k], s.vectors + [near]);
    var list, g := PlannedList(config, p, s, near, 0), Planned(config, p, s, near);
    PlannedLength(config, p, s, near);
    PlannedIsShedding(s.graph, g, list, Centre(config), k);
    OneMoreNear(s.vectors, far, near);
    Shed(x, g, k, list, far, near);
    forall b: nat ensures !Edge(Inserted(config, p, s, k, near).graph, 0, 0, b) {
      assert !Edge(Link(x, g, k, 0, list), 0, 0, b);
    }
  }

  lemma PlannedLength(config: Config, p: Platform, s: State, v: Vector)
    requires Valid(config, p, s) && s.graph != []
    ensures |Planned(config, p, s, v)| == |s.graph| + 1
  {
  }

  lemma PlannedIsShedding(g: Graph, h: Graph, list: seq<nat>, c: nat, n: nat)
    requires Wheel(g, c) && |g| == n && |h| == n + 1 && c < n
    requires forall b: nat :: b in list <==> 1 <= b <= c
    requires forall a: nat, b: nat :: Edge(h, 0, a, b) <==> Edge(g, 0, a, b) || (a == n && b in list)
    ensures Shedding(h, n, list)
  {
    hide Edge;
  }
}
