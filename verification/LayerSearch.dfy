/** Beam search on one layer (`search_layer`), and what its answer means although the walk stops
    early and never looks at most of the graph. */
module LayerSearch {
  import opened Ranking
  import opened Reachability

  /** `pending` is the queue of nodes to expand, `best` the bounded result queue; both are kept
      best first, so the source's `best.top()`, the worst result so far, is the last element. */
  datatype Frontier = Frontier(pending: seq<nat>, best: seq<nat>, visited: set<nat>)

  /** What the source takes for granted when it searches a layer. */
  ghost predicate Searchable(view: View, links: Links) {
    DistinctIds(view) && |links| == |view| && ClosedLinks(links)
  }

  ghost predicate Tidy(view: View, ef: nat, f: Frontier) {
    && Ordered(view, f.pending)
    && Ordered(view, f.best)
    && |f.best| <= ef
    && f.visited <= Nodes(|view|)
    && (forall v :: v in f.pending || v in f.best ==> v in f.visited)
  }

  ghost function Work(view: View, f: Frontier): nat {
    |Nodes(|view|) - f.visited| + |f.pending|
  }

  function Worst(q: seq<nat>): nat
    requires |q| > 0
  {
    q[|q| - 1]
  }

  /** The result queue is full and its worst entry ranks above `v`. */
  predicate Beyond(view: View, ef: nat, best: seq<nat>, v: nat)
    requires ef > 0 && InRange(view, best) && v < |view|
  {
    |best| >= ef && Better(view[Worst(best)], view[v])
  }

  /** Push onto the result queue and drop the worst entry if that makes it too long. */
  function Admit(view: View, ef: nat, best: seq<nat>, n: nat): (r: seq<nat>)
    requires DistinctIds(view) && Ordered(view, best) && |best| <= ef
    requires n < |view| && n !in best
    ensures Ordered(view, r) && |r| <= ef
    ensures forall x :: x in r ==> x == n || x in best
  {
    var grown := Insert(view, best, n);
    if |grown| > ef then grown[..|grown| - 1] else grown
  }

  /** One neighbour of the node being expanded. */
  function Offer(view: View, eligible: set<nat>, ef: nat, f: Frontier, n: nat): (r: Frontier)
    requires DistinctIds(view) && Tidy(view, ef, f) && ef > 0 && n < |view|
    ensures Tidy(view, ef, r)
    ensures Work(view, r) <= Work(view, f)
    ensures r.visited == f.visited + {n}
  {
    if n in f.visited then f else
      var visited := f.visited + {n};
      assert Nodes(|view|) - f.visited == (Nodes(|view|) - visited) + {n};
      if |f.best| < ef || Better(view[n], view[Worst(f.best)]) then
        Frontier(Insert(view, f.pending, n),
                 if n in eligible then Admit(view, ef, f.best, n) else f.best,
                 visited)
      else
        Frontier(f.pending, f.best, visited)
  }

  lemma TidyFacts(view: View, ef: nat, f: Frontier)
    requires Tidy(view, ef, f)
    ensures InRange(view, f.pending) && Ordered(view, f.best) && |f.best| <= ef
  {
  }

  lemma OfferUnfolds(view: View, eligible: set<nat>, ef: nat, f: Frontier, n: nat)
    requires DistinctIds(view) && Tidy(view, ef, f) && ef > 0 && n < |view|
    ensures InRange(view, f.pending) && Ordered(view, f.best) && |f.best| <= ef
    ensures n in f.visited ==> Offer(view, eligible, ef, f, n) == f
    ensures n !in f.visited ==> n !in f.best
    ensures n !in f.visited ==>
      var kept := |f.best| < ef || Better(view[n], view[Worst(f.best)]);
      Offer(view, eligible, ef, f, n)
      == Frontier(if kept then Insert(view, f.pending, n) else f.pending,
                  if kept && n in eligible then Admit(view, ef, f.best, n) else f.best,
                  f.visited + {n})
  {
  }

  /** All neighbours of the node being expanded, in list order. */
  function Expand(view: View, eligible: set<nat>, ef: nat, f: Frontier, list: seq<nat>): (r: Frontier)
    requires DistinctIds(view) && Tidy(view, ef, f) && ef > 0
    requires InRange(view, list)
    ensures Tidy(view, ef, r)
    ensures Work(view, r) <= Work(view, f)
    ensures forall v :: v in r.visited <==> v in f.visited || v in list
    decreases |list|
  {
    if list == [] then f else
      assert list == [list[0]] + list[1..];
      Expand(view, eligible, ef, Offer(view, eligible, ef, f, list[0]), list[1..])
  }

  /** The main loop: expand the best pending node until none is left or none can help. */
  function Explore(view: View, links: Links, eligible: set<nat>, ef: nat, f: Frontier): (r: Frontier)
    requires Searchable(view, links) && Tidy(view, ef, f) && ef > 0
    ensures Tidy(view, ef, r)
    decreases Work(view, f)
  {
    if f.pending == [] || Beyond(view, ef, f.best, f.pending[0]) then f else
      Explore(view, links, eligible, ef,
              Expand(view, eligible, ef, Rest(view, ef, f), links[f.pending[0]]))
  }

  /** One round of the main loop. */
  lemma ExploreUnfolds(view: View, links: Links, eligible: set<nat>, ef: nat, f: Frontier)
    requires Searchable(view, links) && Tidy(view, ef, f) && ef > 0
    ensures f.pending == [] || Beyond(view, ef, f.best, f.pending[0]) ==> Explore(view, links, eligible, ef, f) == f
    ensures f.pending != [] && !Beyond(view, ef, f.best, f.pending[0]) ==>
      Explore(view, links, eligible, ef, f)
      == Explore(view, links, eligible, ef, Expand(view, eligible, ef, Rest(view, ef, f), links[f.pending[0]]))
  {
  }

  function Rest(view: View, ef: nat, f: Frontier): (r: Frontier)
    requires Tidy(view, ef, f) && f.pending != []
    ensures Tidy(view, ef, r) && Work(view, r) + 1 == Work(view, f)
  {
    f.(pending := f.pending[1..])
  }

  function Start(view: View, eligible: set<nat>, entry: nat): (f: Frontier)
    requires entry < |view|
    ensures forall ef :: ef > 0 ==> Tidy(view, ef, f)
  {
    Frontier([entry], if entry in eligible then [entry] else [], {entry})
  }

  /** `search_layer`: the result queue, best first. */
  function Search(view: View, links: Links, eligible: set<nat>, entry: nat, ef: nat): (r: seq<nat>)
    requires Searchable(view, links) && entry < |view| && ef > 0
    ensures Ordered(view, r)
  {
    Explore(view, links, eligible, ef, Start(view, eligible, entry)).best
  }

  // ---------- Invariant of the exploration ----------

  /** `v` has been expanded: the search has seen all its neighbours. */
  ghost predicate Expanded(links: Links, f: Frontier, v: nat) {
    v < |links| && forall w :: w in links[v] ==> w in f.visited
  }

  /** `open` holds the node whose neighbours are being offered, if any. */
  ghost predicate Exploring(view: View, links: Links, eligible: set<nat>, entry: nat, ef: nat,
                            open: set<nat>, f: Frontier)
  {
    && Searchable(view, links) && Tidy(view, ef, f) && ef > 0
    && entry in f.visited
    && f.visited <= ReachableSet(links, entry)
    && (forall v :: v in f.best ==> v in eligible)
    && (forall v :: v in f.visited && v in eligible && v !in f.best ==> Beyond(view, ef, f.best, v))
    && (forall v :: v in f.visited && v !in f.pending && v !in open ==>
          Expanded(links, f, v) || Beyond(view, ef, f.best, v))
  }

  lemma StartExplores(view: View, links: Links, eligible: set<nat>, entry: nat, ef: nat)
    requires Searchable(view, links) && entry < |view| && ef > 0
    ensures Exploring(view, links, eligible, entry, ef, {}, Start(view, eligible, entry))
  {
  }

  lemma WorstIsLast(view: View, q: seq<nat>, x: nat)
    requires Ordered(view, q) && x in q
    ensures x == Worst(q) || Better(view[x], view[Worst(q)])
  {
  }

  /** A result queue that admits a better node still rejects whatever it rejected before. */
  lemma AdmitKeepsBeyond(view: View, ef: nat, best: seq<nat>, n: nat, v: nat)
    requires DistinctIds(view) && Ordered(view, best) && 0 < ef && |best| <= ef
    requires n < |view| && n !in best && v < |view| && Beyond(view, ef, best, v)
    requires Better(view[n], view[Worst(best)])
    ensures Beyond(view, ef, Admit(view, ef, best, n), v)
  {
    var last := Worst(Admit(view, ef, best, n));
    if last != n {
      WorstIsLast(view, best, last);
    }
  }

  /** What a full queue drops ranks below all that stay. */
  lemma AdmitDropsBeyond(view: View, ef: nat, best: seq<nat>, n: nat, v: nat)
    requires DistinctIds(view) && Ordered(view, best) && 0 < ef && |best| <= ef
    requires n < |view| && n !in best && (v == n || v in best)
    ensures v in Admit(view, ef, best, n) || Beyond(view, ef, Admit(view, ef, best, n), v)
  {
  }

  /** The result queue after an offer: nothing eligible is lost except what ranks too low. */
  lemma OfferBest(view: View, eligible: set<nat>, ef: nat, f: Frontier, n: nat, v: nat)
    requires DistinctIds(view) && Tidy(view, ef, f) && ef > 0 && n < |view|
    requires v < |view|
    ensures var r := Offer(view, eligible, ef, f, n);
            && (Beyond(view, ef, f.best, v) ==> Beyond(view, ef, r.best, v))
            && (v in f.best || (v == n && n !in f.visited && v in eligible)
                ==> v in r.best || Beyond(view, ef, r.best, v))
  {
    if n !in f.visited && n in eligible && (|f.best| < ef || Better(view[n], view[Worst(f.best)])) {
      if Beyond(view, ef, f.best, v) {
        AdmitKeepsBeyond(view, ef, f.best, n, v);
      }
      if v in f.best || v == n {
        AdmitDropsBeyond(view, ef, f.best, n, v);
      }
    } else if v == n && n !in f.visited && n in eligible {
      assert |f.best| == ef;
      RejectedIsBeyond(view, ef, f.best, n);
    }
  }

  lemma RejectedIsBeyond(view: View, ef: nat, best: seq<nat>, n: nat)
    requires DistinctIds(view) && Ordered(view, best) && 0 < ef && |best| == ef
    requires n < |view| && n !in best && !Better(view[n], view[Worst(best)])
    ensures Beyond(view, ef, best, n)
  {
  }

  lemma OfferKeeps(view: View, links: Links, eligible: set<nat>, entry: nat, ef: nat,
                   open: set<nat>, f: Frontier, n: nat)
    requires Exploring(view, links, eligible, entry, ef, open, f)
    requires n < |view| && n in ReachableSet(links, entry)
    ensures Exploring(view, links, eligible, entry, ef, open, Offer(view, eligible, ef, f, n))
  {
    var r := Offer(view, eligible, ef, f, n);
    forall v | v in r.visited && v in eligible && v !in r.best ensures Beyond(view, ef, r.best, v) {
      OfferBest(view, eligible, ef, f, n, v);
    }
    forall v | v in r.visited && v !in r.pending && v !in open
      ensures Expanded(links, r, v) || Beyond(view, ef, r.best, v)
    {
      OfferBest(view, eligible, ef, f, n, v);
      if v == n && n !in f.visited {
        RejectedIsBeyond(view, ef, f.best, n);
      } else if Expanded(links, f, v) {
        assert Expanded(links, r, v);
      }
    }
  }

  lemma {:induction false} ExpandKeeps(view: View, links: Links, eligible: set<nat>, entry: nat,
                                       ef: nat, open: set<nat>, f: Frontier, list: seq<nat>)
    requires Exploring(view, links, eligible, entry, ef, open, f)
    requires InRange(view, list) && forall i :: 0 <= i < |list| ==> list[i] in ReachableSet(links, entry)
    ensures Exploring(view, links, eligible, entry, ef, open, Expand(view, eligible, ef, f, list))
    decreases |list|
  {
    if list != [] {
      OfferKeeps(view, links, eligible, entry, ef, open, f, list[0]);
      ExpandKeeps(view, links, eligible, entry, ef, open, Offer(view, eligible, ef, f, list[0]), list[1..]);
    }
  }

  /** One round of the main loop expands the best pending node. */
  lemma ExpandFirst(view: View, links: Links, eligible: set<nat>, entry: nat, ef: nat, f: Frontier)
    requires Exploring(view, links, eligible, entry, ef, {}, f) && f.pending != []
    ensures Exploring(view, links, eligible, entry, ef, {},
                      Expand(view, eligible, ef, Rest(view, ef, f), links[f.pending[0]]))
  {
    var current := f.pending[0];
    var rest := Rest(view, ef, f);
    OrderedTail(view, f.pending);
    assert Exploring(view, links, eligible, entry, ef, {current}, rest) by {
      forall v | v in rest.visited && v !in rest.pending && v !in {current}
        ensures Expanded(links, rest, v) || Beyond(view, ef, rest.best, v)
      {
        assert v !in f.pending;
        if Expanded(links, f, v) { assert Expanded(links, rest, v); }
      }
    }
    forall i | 0 <= i < |links[current]| ensures links[current][i] in ReachableSet(links, entry) {
      ReachesNeighbour(links, entry, current, links[current][i]);
    }
    ExpandKeeps(view, links, eligible, entry, ef, {current}, rest, links[current]);
    assert Expanded(links, Expand(view, eligible, ef, rest, links[current]), current);
  }

  lemma {:induction false} ExploreKeeps(view: View, links: Links, eligible: set<nat>, entry: nat,
                                        ef: nat, f: Frontier)
    requires Exploring(view, links, eligible, entry, ef, {}, f)
    ensures var r := Explore(view, links, eligible, ef, f);
            && Exploring(view, links, eligible, entry, ef, {}, r)
            && (r.pending == [] || Beyond(view, ef, r.best, r.pending[0]))
    decreases Work(view, f)
  {
    if f.pending != [] && !Beyond(view, ef, f.best, f.pending[0]) {
      ExpandFirst(view, links, eligible, entry, ef, f);
      var next := Expand(view, eligible, ef, Rest(view, ef, f), links[f.pending[0]]);
      ExploreKeeps(view, links, eligible, entry, ef, next);
    }
  }

  // ---------- What the answer means ----------

  /** The nodes a search may return: eligible ones that the entry reaches on this layer. */
  ghost function Answerable(links: Links, eligible: set<nat>, entry: nat): set<nat> {
    ReachableSet(links, entry) * eligible
  }

  /** The answer is as long as `ef` and reachability allow: ineligible nodes on the way and the
      early stop never shorten it. */
  lemma SearchCount(view: View, links: Links, eligible: set<nat>, entry: nat, ef: nat)
    requires Searchable(view, links) && entry < |view| && ef > 0
    ensures var r := Search(view, links, eligible, entry, ef);
            var answerable := Answerable(links, eligible, entry);
            && Elements(r) <= answerable
            && |r| == (if ef < |answerable| then ef else |answerable|)
  {
    StartExplores(view, links, eligible, entry, ef);
    ExploreKeeps(view, links, eligible, entry, ef, Start(view, eligible, entry));
    var f := Explore(view, links, eligible, ef, Start(view, eligible, entry));
    var answerable := Answerable(links, eligible, entry);
    OrderedIsDistinct(view, f.best);
    DistinctCount(f.best);
    assert Elements(f.best) <= answerable;
    SubsetSize(Elements(f.best), answerable);
    if |f.best| < ef {
      assert f.pending == [];
      forall v, w | v in f.visited && v < |links| && w in links[v] ensures w in f.visited {
        assert Expanded(links, f, v);
      }
      ClosureContainsReachable(links, entry, f.visited);
      assert answerable <= Elements(f.best);
      assert answerable == Elements(f.best);
    }
  }

  lemma {:induction false} SubsetSize(a: set<nat>, b: set<nat>)
    requires a <= b
    ensures |a| <= |b|
  {
    assert b == a + (b - a);
  }

  /** The nodes a search has looked at when it ends. */
  function Visited(view: View, links: Links, eligible: set<nat>, entry: nat, ef: nat): set<nat>
    requires Searchable(view, links) && entry < |view| && ef > 0
  {
    Explore(view, links, eligible, ef, Start(view, eligible, entry)).visited
  }

  /** The answer is the best `ef` of all eligible nodes that were visited, and the neighbours of every
      answered node were visited. */
  lemma SearchIsBestOfVisited(view: View, links: Links, eligible: set<nat>, entry: nat, ef: nat)
    requires Searchable(view, links) && entry < |view| && ef > 0
    ensures var r, visited := Search(view, links, eligible, entry, ef), Visited(view, links, eligible, entry, ef);
            && entry in visited && visited <= ReachableSet(links, entry)
            && Elements(r) <= visited * eligible
            && |r| == (if ef < |visited * eligible| then ef else |visited * eligible|)
            && (forall v, x :: v in visited && v in eligible && v !in r && x in r ==> Better(view[x], view[v]))
            && (forall v, w :: v in r && v < |links| && w in links[v] ==> w in visited)
  {
    StartExplores(view, links, eligible, entry, ef);
    ExploreKeeps(view, links, eligible, entry, ef, Start(view, eligible, entry));
    var f := Explore(view, links, eligible, ef, Start(view, eligible, entry));
    forall v, x | v in f.visited && v in eligible && v !in f.best && x in f.best ensures Better(view[x], view[v]) {
      WorstIsLast(view, f.best, x);
    }
    forall v | v in f.best ensures Expanded(links, f, v) {
      WorstIsLast(view, f.best, v);
      if v in f.pending {
        OrderedHead(view, f.pending, v);
      }
    }
    OrderedIsDistinct(view, f.best);
    DistinctCount(f.best);
    var all := f.visited * eligible;
    SubsetSize(Elements(f.best), all);
    if |f.best| < ef {
      assert all <= Elements(f.best);
      assert all == Elements(f.best);
    }
  }

  /** The answer is a local optimum: each returned node was expanded, and an eligible neighbour of
      a returned node is itself returned or ranks below every node of a full answer. */
  lemma SearchLocallyOptimal(view: View, links: Links, eligible: set<nat>, entry: nat, ef: nat,
                             v: nat, w: nat)
    requires Searchable(view, links) && entry < |view| && ef > 0
    requires v in Search(view, links, eligible, entry, ef)
    requires v < |links| && w in links[v] && w in eligible && w < |view|
    ensures var r := Search(view, links, eligible, entry, ef);
            w in r || (|r| == ef && forall x :: x in r ==> Better(view[x], view[w]))
  {
    StartExplores(view, links, eligible, entry, ef);
    ExploreKeeps(view, links, eligible, entry, ef, Start(view, eligible, entry));
    var f := Explore(view, links, eligible, ef, Start(view, eligible, entry));
    WorstIsLast(view, f.best, v);
    if v in f.pending {
      OrderedHead(view, f.pending, v);
    }
    assert Expanded(links, f, v);
    if w !in f.best {
      forall x | x in f.best ensures Better(view[x], view[w]) {
        WorstIsLast(view, f.best, x);
      }
    }
  }

  /** With room for every reachable eligible node the search is exhaustive. */
  lemma SearchExhaustive(view: View, links: Links, eligible: set<nat>, entry: nat, ef: nat)
    requires Searchable(view, links) && entry < |view| && ef > 0
    requires |Answerable(links, eligible, entry)| <= ef
    ensures Elements(Search(view, links, eligible, entry, ef)) == Answerable(links, eligible, entry)
  {
    var r := Search(view, links, eligible, entry, ef);
    var answerable := Answerable(links, eligible, entry);
    SearchCount(view, links, eligible, entry, ef);
    OrderedIsDistinct(view, r);
    DistinctCount(r);
    assert answerable == Elements(r) + (answerable - Elements(r));
    assert |answerable - Elements(r)| == 0;
  }
}
