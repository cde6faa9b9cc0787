/** One layer of a graph as a sequence of adjacency lists, and walks on it. */
module Reachability {

  type Links = seq<seq<nat>>

  /** Every neighbour is a node. */
  ghost predicate ClosedLinks(links: Links) {
    forall a, i :: 0 <= a < |links| && 0 <= i < |links[a]| ==> links[a][i] < |links|
  }

  ghost function Nodes(n: nat): (r: set<nat>)
    ensures forall i: nat :: i in r <==> i < n
    ensures |r| == n
  {
    if n == 0 then {} else Nodes(n - 1) + {n - 1}
  }

  ghost predicate Walk(links: Links, p: seq<nat>) {
    && |p| > 0
    && (forall i :: 0 <= i < |p| ==> p[i] < |links|)
    && (forall i :: 0 <= i < |p| - 1 ==> p[i + 1] in links[p[i]])
  }

  ghost predicate Reachable(links: Links, a: nat, b: nat) {
    exists p :: Walk(links, p) && p[0] == a && p[|p| - 1] == b
  }

  /** The nodes that can be reached from `a`. */
  ghost function ReachableSet(links: Links, a: nat): set<nat> {
    set b | b in Nodes(|links|) && Reachable(links, a, b)
  }

  lemma ReachesItself(links: Links, a: nat)
    requires a < |links|
    ensures a in ReachableSet(links, a)
  {
    assert Walk(links, [a]) && [a][0] == a && [a][|[a]| - 1] == a;
  }

  lemma ReachesNeighbour(links: Links, a: nat, b: nat, c: nat)
    requires ClosedLinks(links) && b in ReachableSet(links, a) && c in links[b]
    ensures c in ReachableSet(links, a)
  {
    var p :| Walk(links, p) && p[0] == a && p[|p| - 1] == b;
    var q := p + [c];
    assert Walk(links, q) && q[0] == a && q[|q| - 1] == c;
  }

  /** A set that contains `a` and is closed under links contains all that `a` reaches. */
  lemma ClosureContainsReachable(links: Links, a: nat, s: set<nat>)
    requires a in s
    requires forall v, w :: v in s && v < |links| && w in links[v] ==> w in s
    ensures ReachableSet(links, a) <= s
  {
    forall b | b in ReachableSet(links, a) ensures b in s {
      var p :| Walk(links, p) && p[0] == a && p[|p| - 1] == b;
      WalkStaysIn(links, p, s, |p| - 1);
    }
  }

  lemma {:induction false} WalkStaysIn(links: Links, p: seq<nat>, s: set<nat>, k: nat)
    requires Walk(links, p) && p[0] in s && k < |p|
    requires forall v, w :: v in s && v < |links| && w in links[v] ==> w in s
    ensures p[k] in s
  {
    if k > 0 {
      WalkStaysIn(links, p, s, k - 1);
      assert p[k - 1 + 1] in links[p[k - 1]];
    }
  }
}
