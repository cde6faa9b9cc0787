/** Where a layer search stops: it never leaves a group of nodes that fills its answer and whose surroundings rank
    lower, however good the nodes further away are. */
module SearchStops {
  import opened Ranking
  import opened Reachability
  import opened LayerSearch
  import opened Numbers
  import opened Configuration
  import opened HnswState
  import opened HnswOperations

  /** A walk from `a` to `b` that stays in `group`. */
  ghost predicate WalksInside(links: Links, group: set<nat>, a: nat, b: nat) {
    exists p :: Walk(links, p) && p[0] == a && p[|p| - 1] == b && forall i :: 0 <= i < |p| ==> p[i] in group
  }

  /** All of the group rank above `w`. */
  ghost predicate Below(view: View, group: set<nat>, w: nat) {
    w < |view| && forall x :: x in group && x < |view| ==> Better(view[x], view[w])
  }

  /** Exactly `ef` eligible nodes that the entry reaches inside the group. Each neighbour outside ranks below all. */
  ghost predicate Encloses(view: View, links: Links, eligible: set<nat>, entry: nat, ef: nat, group: set<nat>) {
    && |group| == ef && entry in group && group <= eligible
    && (forall v :: v in group ==> v < |view| && v < |links| && WalksInside(links, group, entry, v))
    && (forall v, w :: v in group && v < |links| && w in links[v] && w !in group ==> Below(view, group, w))
  }

  /** Only the group and lower-ranking nodes have been looked at. */
  ghost predicate Inside(view: View, group: set<nat>, f: Frontier) {
    forall w :: w in f.visited && w !in group ==> Below(view, group, w)
  }

  ghost predicate Searching(view: View, links: Links, eligible: set<nat>, entry: nat, ef: nat, group: set<nat>,
                            f: Frontier)
  {
    && Exploring(view, links, eligible, entry, ef, {}, f)
    && Encloses(view, links, eligible, entry, ef, group) && Inside(view, group, f)
  }

  /** A full answer cannot rank above a member of the group throughout. */
  lemma MemberIsNotBeyond(view: View, links: Links, eligible: set<nat>, entry: nat, ef: nat, group: set<nat>,
                          f: Frontier, v: nat)
    requires Searching(view, links, eligible, entry, ef, group, f) && v in group
    ensures v < |view| && !Beyond(view, ef, f.best, v)
  {
    if Beyond(view, ef, f.best, v) {
      forall x | x in f.best ensures x in group && x != v {
        WorstIsLast(view, f.best, x);
        assert x in f.visited;
        assert x !in group ==> Below(view, group, x);
      }
      OrderedIsDistinct(view, f.best);
      DistinctCount(f.best);
      SubsetSize(Elements(f.best), group - {v});
    }
  }

  /** Once all members seen so far were expanded, the whole group is the answer. */
  lemma GroupIsAnswer(view: View, links: Links, eligible: set<nat>, entry: nat, ef: nat, group: set<nat>, f: Frontier)
    requires Searching(view, links, eligible, entry, ef, group, f)
    requires forall v :: v in group && v in f.visited ==> v !in f.pending
    ensures Elements(f.best) == group
  {
    forall v | v in group && v in f.visited ensures Expanded(links, f, v) {
      MemberIsNotBeyond(view, links, eligible, entry, ef, group, f, v);
    }
    forall v | v in group ensures v in f.visited {
      assert WalksInside(links, group, entry, v);
      var p :| Walk(links, p) && p[0] == entry && p[|p| - 1] == v && forall i :: 0 <= i < |p| ==> p[i] in group;
      WalkIsVisited(links, group, f, p, |p| - 1);
    }
    forall v | v in group ensures v in f.best {
      MemberIsNotBeyond(view, links, eligible, entry, ef, group, f, v);
    }
    OrderedIsDistinct(view, f.best);
    DistinctCount(f.best);
    AllOfThem(group, Elements(f.best));
  }

  lemma AllOfThem(a: set<nat>, b: set<nat>)
    requires a <= b && |b| <= |a|
    ensures a == b
  {
    assert b == a + (b - a);
    assert |b - a| == 0;
  }

  lemma {:induction false} WalkIsVisited(links: Links, group: set<nat>, f: Frontier, p: seq<nat>, k: nat)
    requires Walk(links, p) && p[0] in f.visited && k < |p| && forall i :: 0 <= i < |p| ==> p[i] in group
    requires forall v :: v in group && v in f.visited ==> Expanded(links, f, v)
    ensures p[k] in f.visited
  {
    if k > 0 {
      WalkIsVisited(links, group, f, p, k - 1);
      assert p[k - 1 + 1] in links[p[k - 1]];
      assert Expanded(links, f, p[k - 1]);
    }
  }

  /** A node outside the group comes first only when the search is over. */
  lemma OutsideIsBeyond(view: View, links: Links, eligible: set<nat>, entry: nat, ef: nat, group: set<nat>, f: Frontier)
    requires Searching(view, links, eligible, entry, ef, group, f) && f.pending != [] && f.pending[0] !in group
    ensures Beyond(view, ef, f.best, f.pending[0])
  {
    var first := f.pending[0];
    assert first in f.visited && Below(view, group, first);
    forall v | v in group && v in f.visited ensures v !in f.pending {
      if v in f.pending {
        OrderedHead(view, f.pending, v);
      }
    }
    GroupIsAnswer(view, links, eligible, entry, ef, group, f);
    OrderedIsDistinct(view, f.best);
    DistinctCount(f.best);
    assert Worst(f.best) in Elements(f.best);
  }

  lemma {:induction false} ExploreStaysInside(view: View, links: Links, eligible: set<nat>, entry: nat, ef: nat,
                                              group: set<nat>, f: Frontier)
    requires Searching(view, links, eligible, entry, ef, group, f)
    ensures Inside(view, group, Explore(view, links, eligible, ef, f))
    decreases Work(view, f)
  {
    if f.pending != [] && !Beyond(view, ef, f.best, f.pending[0]) {
      var current := f.pending[0];
      if current !in group {
        OutsideIsBeyond(view, links, eligible, entry, ef, group, f);
      } else {
        var next := Expand(view, eligible, ef, Rest(view, ef, f), links[current]);
        RoundExplores(view, links, eligible, entry, ef, f);
        RoundStaysInside(view, links, eligible, entry, ef, group, f);
        ExploreStaysInside(view, links, eligible, entry, ef, group, next);
      }
    }
  }

  /** One round of the main loop keeps the invariant of the exploration. */
  lemma RoundExplores(view: View, links: Links, eligible: set<nat>, entry: nat, ef: nat, f: Frontier)
    requires Exploring(view, links, eligible, entry, ef, {}, f)
    requires f.pending != [] && !Beyond(view, ef, f.best, f.pending[0])
    ensures var next := Expand(view, eligible, ef, Rest(view, ef, f), links[f.pending[0]]);
            Exploring(view, links, eligible, entry, ef, {}, next) && Work(view, next) < Work(view, f)
  {
    ExpandFirst(view, links, eligible, entry, ef, f);
  }

  lemma RoundStaysInside(view: View, links: Links, eligible: set<nat>, entry: nat, ef: nat, group: set<nat>,
                         f: Frontier)
    requires Searching(view, links, eligible, entry, ef, group, f) && f.pending != [] && f.pending[0] in group
    ensures Inside(view, group, Expand(view, eligible, ef, Rest(view, ef, f), links[f.pending[0]]))
  {
    var next := Expand(view, eligible, ef, Rest(view, ef, f), links[f.pending[0]]);
    forall w | w in next.visited && w !in group ensures Below(view, group, w) {
      if w !in f.visited {
        assert w in links[f.pending[0]];
      }
    }
  }

  /** A group that fills the answer and ranks above all its neighbours is exactly what the search returns. */
  lemma SearchStaysInside(view: View, links: Links, eligible: set<nat>, entry: nat, ef: nat, group: set<nat>)
    requires Searchable(view, links) && ef > 0 && Encloses(view, links, eligible, entry, ef, group)
    ensures entry < |view| && Elements(Search(view, links, eligible, entry, ef)) == group
  {
    var start := Start(view, eligible, entry);
    StartExplores(view, links, eligible, entry, ef);
    ExploreKeeps(view, links, eligible, entry, ef, start);
    ExploreStaysInside(view, links, eligible, entry, ef, group, start);
    var f := Explore(view, links, eligible, ef, start);
    forall v | v in group && v in f.visited ensures v !in f.pending {
      if v in f.pending {
        MemberIsNotBeyond(view, links, eligible, entry, ef, group, f, v);
        OrderedHead(view, f.pending, v);
      }
    }
    GroupIsAnswer(view, links, eligible, entry, ef, group, f);
  }

  // ---------- Queries ----------

  /** The live nodes around a query's entry to layer 0 that fill its beam and rank above all their neighbours. */
  ghost predicate Surrounds(config: Config, p: Platform, s: State, q: Vector, k: nat, ef: nat, group: set<nat>)
    requires Valid(config, p, s) && s.graph != []
  {
    Encloses(ViewOf(p, s.ids, s.vectors, q), Layer(s.graph, 0), Eligible(s.graph, true), BaseEntry(config, p, s, q),
             Most(Least(k, Size(config, p, s)), ef), group)
  }

  ghost function ResultsOf(view: View, group: set<nat>): set<SearchResult> {
    set n | n in group && n < |view| :: view[n]
  }

  /** Such a query is answered from this group alone, by its best k, although better vectors may be stored elsewhere. */
  lemma AnswerIsFromGroup(config: Config, p: Platform, s: State, query: Vector, k: nat, ef: nat, group: set<nat>)
    requires Queried(config, p, s, query, k, ef) && Surrounds(config, p, s, p.normalize(query).vector, k, ef, group)
    ensures |s.ids| == |s.vectors| && Answer(config, p, s, query, k, ef).Found?
    ensures IsTopK(Answer(config, p, s, query, k, ef).results,
                   ResultsOf(ViewOf(p, s.ids, s.vectors, p.normalize(query).vector), group), k)
  {
    var q := p.normalize(query).vector;
    hide Queried, Valid, Answer, Chosen, IsTopK, Surrounds, Shows, LeavesOnlyWorse, Ordered;
    QueriedFacts(config, p, s, query, k, ef);
    AnswerShowsChosen(config, p, s, query, k, ef);
    ChosenFromGroup(config, p, s, q, k, ef, group);
    ResultsAreTopK(ViewOf(p, s.ids, s.vectors, q), group, ResultsOf(ViewOf(p, s.ids, s.vectors, q), group),
                   Chosen(config, p, s, q, k, ef), k);
  }

  lemma QueriedFacts(config: Config, p: Platform, s: State, query: Vector, k: nat, ef: nat)
    requires Queried(config, p, s, query, k, ef)
    ensures Valid(config, p, s) && s.graph != [] && k > 0 && ef > 0 && |s.ids| == |s.vectors| == |s.graph|
  {
  }

  lemma ChosenFromGroup(config: Config, p: Platform, s: State, q: Vector, k: nat, ef: nat, group: set<nat>)
    requires Valid(config, p, s) && s.graph != [] && k > 0 && ef > 0 && Surrounds(config, p, s, q, k, ef, group)
    ensures |s.ids| == |s.vectors| == |s.graph|
    ensures var view, chosen := ViewOf(p, s.ids, s.vectors, q), Chosen(config, p, s, q, k, ef);
            && Shows(view, group, ResultsOf(view, group)) && Ordered(view, chosen)
            && |chosen| == Least(k, |group|) && (forall i :: 0 <= i < |chosen| ==> chosen[i] in group)
            && LeavesOnlyWorse(view, group, chosen)
  {
    hide Valid, Beam, Chosen, Surrounds, LeavesOnlyWorse, Shows, Ordered, Size;
    ValidLengths(config, p, s);
    var view, count := ViewOf(p, s.ids, s.vectors, q), Least(k, Size(config, p, s));
    var found := Beam(config, p, s, q, Most(count, ef));
    BeamIsGroup(config, p, s, q, k, ef, group);
    ChosenIsPrefix(config, p, s, q, k, ef);
    PrefixLeavesOnlyWorse(view, found, count);
    var chosen := Chosen(config, p, s, q, k, ef);
    forall i | 0 <= i < |chosen| ensures chosen[i] in group {
      assert chosen[i] == found[i] && found[i] in Elements(found);
    }
  }

  lemma ChosenIsPrefix(config: Config, p: Platform, s: State, q: Vector, k: nat, ef: nat)
    requires Valid(config, p, s) && s.graph != [] && k > 0 && ef > 0
    ensures var count := Least(k, Size(config, p, s));
            var found := Beam(config, p, s, q, Most(count, ef));
            && Ordered(ViewOf(p, s.ids, s.vectors, q), found)
            && Chosen(config, p, s, q, k, ef) == found[..Least(count, |found|)]
  {
    hide Search, BaseEntry;
  }

  lemma BeamIsGroup(config: Config, p: Platform, s: State, q: Vector, k: nat, ef: nat, group: set<nat>)
    requires Valid(config, p, s) && s.graph != [] && k > 0 && ef > 0 && Surrounds(config, p, s, q, k, ef, group)
    ensures |s.ids| == |s.vectors| == |s.graph|
    ensures var view, width := ViewOf(p, s.ids, s.vectors, q), Most(Least(k, Size(config, p, s)), ef);
            var found := Beam(config, p, s, q, width);
            && Elements(found) == group && |found| == |group| == width <= Size(config, p, s)
            && Shows(view, group, ResultsOf(view, group))
  {
    hide Valid, Beam, BaseEntry, Encloses, ReachableSet, Search, Searchable, Layer, Ordered, Eligible, Shows;
    ValidLengths(config, p, s);
    var view, width := ViewOf(p, s.ids, s.vectors, q), Most(Least(k, Size(config, p, s)), ef);
    BeamIsSearch(config, p, s, q, width);
    SearchStaysInside(view, Layer(s.graph, 0), Eligible(s.graph, true), BaseEntry(config, p, s, q), width, group);
    BeamFacts(config, p, s, q, width);
    EnclosedIsLive(view, Layer(s.graph, 0), Eligible(s.graph, true), BaseEntry(config, p, s, q), width, group);
    GroupIsShown(view, Layer(s.graph, 0), group);
  }

  lemma GroupIsShown(view: View, links: Links, group: set<nat>)
    requires Searchable(view, links) && forall v :: v in group ==> v < |view|
    ensures Shows(view, group, ResultsOf(view, group))
  {
    ImageSize(view, group, ResultsOf(view, group));
  }

  lemma EnclosedIsLive(view: View, links: Links, eligible: set<nat>, entry: nat, ef: nat, group: set<nat>)
    requires Encloses(view, links, eligible, entry, ef, group)
    ensures |group| == ef <= |eligible| && forall v :: v in group ==> v < |view|
  {
    SubsetSize(group, eligible);
  }

  lemma BeamIsSearch(config: Config, p: Platform, s: State, q: Vector, width: nat)
    requires Valid(config, p, s) && s.graph != [] && width > 0
    ensures |s.ids| == |s.vectors| == |s.graph|
    ensures var view, links := ViewOf(p, s.ids, s.vectors, q), Layer(s.graph, 0);
            && Searchable(view, links)
            && Beam(config, p, s, q, width)
               == Search(view, links, Eligible(s.graph, true), BaseEntry(config, p, s, q), width)
  {
    IdsAreDistinct(s.ids, s.idToNode);
    LayerIsClosed(config, s.graph, 0);
  }
}
