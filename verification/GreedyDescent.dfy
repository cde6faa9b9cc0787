/** Greedy walk on one upper layer (`greedy_search_layer`). */
module GreedyDescent {
  import opened Ranking
  import opened Reachability
  import opened LayerSearch

  /** One pass over an adjacency list. The running best may be replaced several times while the
      list of the node that the pass began with is still being read. */
  function Scan(view: View, best: nat, list: seq<nat>): (r: nat)
    requires best < |view| && InRange(view, list)
    ensures r < |view| && (r == best || r in list)
    ensures r == best || Better(view[r], view[best])
    ensures DistinctIds(view) ==> forall n :: n in list ==> !Better(view[n], view[r])
    decreases |list|
  {
    if list == [] then best else
      Scan(view, if Better(view[list[0]], view[best]) then list[0] else best, list[1..])
  }

  ghost function Above(view: View, n: nat): set<nat>
    requires n < |view|
  {
    set v | v in Nodes(|view|) && Better(view[v], view[n])
  }

  lemma AboveShrinks(view: View, n: nat, m: nat)
    requires n < |view| && m < |view| && Better(view[m], view[n])
    ensures |Above(view, m)| < |Above(view, n)|
  {
    assert m in Above(view, n) && m !in Above(view, m);
    assert Above(view, m) <= Above(view, n) - {m};
    SubsetSize(Above(view, m), Above(view, n) - {m});
  }

  /** Passes repeat until one brings no improvement; fewer nodes rank above the best each time. */
  function Greedy(view: View, links: Links, entry: nat): (r: nat)
    requires Searchable(view, links) && entry < |view|
    ensures r < |view|
    decreases |Above(view, entry)|
  {
    var best := Scan(view, entry, links[entry]);
    if best == entry then entry else
      AboveShrinks(view, entry, best);
      Greedy(view, links, best)
  }

  /** The walk ends at a node it can reach, no worse than the entry and not beaten by any of its
      neighbours. */
  lemma {:induction false} GreedyIsLocalOptimum(view: View, links: Links, entry: nat)
    requires Searchable(view, links) && entry < |view|
    ensures var r := Greedy(view, links, entry);
            && r in ReachableSet(links, entry)
            && (r == entry || Better(view[r], view[entry]))
            && (forall n :: n in links[r] ==> !Better(view[n], view[r]))
    decreases |Above(view, entry)|
  {
    var best := Scan(view, entry, links[entry]);
    ReachesItself(links, entry);
    if best != entry {
      AboveShrinks(view, entry, best);
      GreedyIsLocalOptimum(view, links, best);
      ReachesNeighbour(links, entry, entry, best);
      var reached := ReachableSet(links, entry);
      forall v, w | v in reached && v < |links| && w in links[v] ensures w in reached {
        ReachesNeighbour(links, entry, v, w);
      }
      ClosureContainsReachable(links, best, reached);
    }
  }

  // ---------- Which walk ----------

  /** No neighbour of `n` ranks above it. */
  ghost predicate Unbeaten(view: View, links: Links, n: nat) {
    n < |links| && n < |view| && forall m :: m in links[n] && m < |view| ==> !Better(view[m], view[n])
  }

  /** The best-ranked neighbour of `a` is `b`, and it ranks above `a`. */
  ghost predicate StepsTo(view: View, links: Links, a: nat, b: nat) {
    && a < |links| && b < |view| && a < |view|
    && b in links[a] && Better(view[b], view[a])
    && forall n :: n in links[a] && n < |view| && n != b ==> Better(view[b], view[n])
  }

  /** A walk of such steps that ends at an unbeaten node. */
  ghost predicate Steepest(view: View, links: Links, path: seq<nat>) {
    && |path| > 0
    && (forall i :: 0 <= i < |path| - 1 ==> StepsTo(view, links, path[i], path[i + 1]))
    && Unbeaten(view, links, path[|path| - 1])
  }

  ghost predicate WalksTo(view: View, links: Links, a: nat, b: nat) {
    exists path :: Steepest(view, links, path) && path[0] == a && path[|path| - 1] == b
  }

  /** The greedy walk goes to the best neighbour each time, until none ranks higher. */
  lemma {:induction false} GreedyIsSteepest(view: View, links: Links, entry: nat)
    requires Searchable(view, links) && entry < |view|
    ensures WalksTo(view, links, entry, Greedy(view, links, entry))
    decreases |Above(view, entry)|
  {
    hide Searchable, Greedy, Scan, Above, StepsTo, Unbeaten, InRange;
    var best := GreedyUnfolds(view, links, entry);
    if best == entry {
      assert Steepest(view, links, [entry]);
    } else {
      GreedyIsSteepest(view, links, best);
      var path :| Steepest(view, links, path) && path[0] == best && path[|path| - 1] == Greedy(view, links, best);
      StepFirst(view, links, entry, path);
      assert ([entry] + path)[|path|] == path[|path| - 1];
    }
  }

  lemma GreedyUnfolds(view: View, links: Links, entry: nat) returns (best: nat)
    requires Searchable(view, links) && entry < |view|
    ensures best < |view|
    ensures best == entry ==> Greedy(view, links, entry) == entry && Unbeaten(view, links, entry)
    ensures best != entry ==>
      && Greedy(view, links, entry) == Greedy(view, links, best) && StepsTo(view, links, entry, best)
      && |Above(view, best)| < |Above(view, entry)|
  {
    ScanIsStep(view, links, entry);
    best := Scan(view, entry, links[entry]);
    if best != entry {
      AboveShrinks(view, entry, best);
    }
  }

  /** One pass is one step, or finds that no neighbour ranks higher. */
  lemma ScanIsStep(view: View, links: Links, entry: nat)
    requires Searchable(view, links) && entry < |view|
    ensures InRange(view, links[entry])
    ensures var best := Scan(view, entry, links[entry]);
            if best == entry then Unbeaten(view, links, entry) else StepsTo(view, links, entry, best)
  {
    assert InRange(view, links[entry]);
    var best := Scan(view, entry, links[entry]);
    forall n | n in links[entry] && n != best ensures Better(view[best], view[n]) {
      OneIsBetter(view, best, n);
    }
  }

  lemma StepFirst(view: View, links: Links, a: nat, path: seq<nat>)
    requires Steepest(view, links, path) && StepsTo(view, links, a, path[0])
    ensures Steepest(view, links, [a] + path)
  {
    hide StepsTo, Unbeaten;
    var whole := [a] + path;
    forall i | 0 <= i < |whole| - 1 ensures StepsTo(view, links, whole[i], whole[i + 1]) {
      assert i > 0 ==> StepsTo(view, links, path[i - 1], path[i - 1 + 1]);
    }
    assert whole[|whole| - 1] == path[|path| - 1];
  }

  lemma OneIsBetter(view: View, a: nat, b: nat)
    requires DistinctIds(view) && a < |view| && b < |view| && a != b
    ensures Better(view[a], view[b]) || Better(view[b], view[a])
  {
    if a < b { assert view[a].id != view[b].id; } else { assert view[b].id != view[a].id; }
  }

  /** From every node there is only one such walk, so where it ends is determined. */
  lemma {:induction false} SteepestUnique(view: View, links: Links, p: seq<nat>, q: seq<nat>)
    requires Steepest(view, links, p) && Steepest(view, links, q) && p[0] == q[0]
    ensures p == q
    decreases |p|
  {
    FirstStep(view, links, p);
    FirstStep(view, links, q);
    if |p| > 1 {
      SecondIsSame(view, links, p[0], p[1], q[1]);
      SteepestUnique(view, links, p[1..], q[1..]);
      assert p == [p[0]] + p[1..] && q == [q[0]] + q[1..];
    }
  }

  /** A steepest walk goes on exactly if its first node is beaten. */
  lemma FirstStep(view: View, links: Links, p: seq<nat>)
    requires Steepest(view, links, p)
    ensures |p| > 1 <==> !Unbeaten(view, links, p[0])
    ensures |p| > 1 ==> StepsTo(view, links, p[0], p[1]) && Steepest(view, links, p[1..])
  {
    if |p| > 1 {
      assert StepsTo(view, links, p[0], p[0 + 1]);
      forall i | 0 <= i < |p[1..]| - 1 ensures StepsTo(view, links, p[1..][i], p[1..][i + 1]) {
        assert StepsTo(view, links, p[i + 1], p[i + 1 + 1]);
      }
    }
  }

  lemma SecondIsSame(view: View, links: Links, a: nat, b: nat, c: nat)
    requires StepsTo(view, links, a, b) && StepsTo(view, links, a, c)
    ensures b == c
  {
  }

  lemma WalkEndsOnce(view: View, links: Links, a: nat, b: nat, c: nat)
    requires WalksTo(view, links, a, b) && WalksTo(view, links, a, c)
    ensures b == c
  {
    var p :| Steepest(view, links, p) && p[0] == a && p[|p| - 1] == b;
    var q :| Steepest(view, links, q) && q[0] == a && q[|q| - 1] == c;
    SteepestUnique(view, links, p, q);
  }
}
