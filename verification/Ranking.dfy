/** The order in which both indexes rank search results, and sequences kept in that order.

    A node's place in a ranking depends only on its score for the query at hand and on its
    external ID, so one query fixes a `View`: the search result that every node would give.
    Scores are only ever compared, and never NaN, so they are modelled by integers. */
module Ranking {
  import opened Wrappers
  import opened SearchContextModel

  /** External IDs are 64-bit unsigned integers. */
  type VectorId = x: int | 0 <= x < 0x1_0000_0000_0000_0000

  datatype SearchResult = SearchResult(id: VectorId, score: int)

  /** Entry `n` is the search result of internal node (or row) `n` for one query. */
  type View = seq<SearchResult>

  /** `is_better`: score descending, then ID ascending. */
  predicate Better(a: SearchResult, b: SearchResult) {
    a.score > b.score || (a.score == b.score && a.id < b.id)
  }

  ghost predicate DistinctIds(view: View) {
    forall i, j :: 0 <= i < j < |view| ==> view[i].id != view[j].id
  }

  ghost predicate InRange(view: View, q: seq<nat>) {
    forall i :: 0 <= i < |q| ==> q[i] < |view|
  }

  /** A priority queue's content, best node first. */
  ghost predicate Ordered(view: View, q: seq<nat>) {
    && InRange(view, q)
    && forall i, j :: 0 <= i < j < |q| ==> Better(view[q[i]], view[q[j]])
  }

  ghost function Elements(q: seq<nat>): set<nat> {
    set n | n in q
  }

  /** Push onto a priority queue. */
  function Insert(view: View, q: seq<nat>, n: nat): (r: seq<nat>)
    requires InRange(view, q) && n < |view|
    ensures |r| == |q| + 1 && InRange(view, r)
    ensures forall x :: x in r <==> x == n || x in q
    ensures DistinctIds(view) && Ordered(view, q) && n !in q ==> Ordered(view, r)
  {
    if q == [] || Better(view[n], view[q[0]]) then
      [n] + q
    else
      var rest := Insert(view, q[1..], n);
      assert DistinctIds(view) && Ordered(view, q) && n !in q ==> Ordered(view, [q[0]] + rest) by {
        if DistinctIds(view) && Ordered(view, q) && n !in q {
          assert n != q[0];
          forall x | x in rest ensures Better(view[q[0]], view[x]) {
            if x != n {
              var i :| 0 <= i < |q[1..]| && q[1..][i] == x;
              assert Better(view[q[0]], view[q[i + 1]]);
            }
          }
        }
      }
      [q[0]] + rest
  }

  /** `std::sort` with `is_better`. */
  function Sort(view: View, xs: seq<nat>): (r: seq<nat>)
    requires InRange(view, xs)
    ensures |r| == |xs| && InRange(view, r)
    ensures forall x :: x in r <==> x in xs
    ensures DistinctIds(view) && Distinct(xs) ==> Ordered(view, r)
  {
    if xs == [] then [] else
      var rest := Sort(view, xs[1..]);
      Insert(view, rest, xs[0])
  }

  ghost predicate Distinct<T>(xs: seq<T>) {
    forall i, j :: 0 <= i < j < |xs| ==> xs[i] != xs[j]
  }

  lemma OrderedIsDistinct(view: View, q: seq<nat>)
    requires Ordered(view, q)
    ensures Distinct(q)
  {
    forall i, j | 0 <= i < j < |q| ensures q[i] != q[j] {
      assert Better(view[q[i]], view[q[j]]);
    }
  }

  /** Members of a strictly ordered sequence are counted by its length. */
  lemma {:induction false} DistinctCount(q: seq<nat>)
    requires Distinct(q)
    ensures |Elements(q)| == |q|
  {
    if q != [] {
      DistinctCount(q[1..]);
      assert Elements(q) == {q[0]} + Elements(q[1..]);
    } else {
      assert Elements(q) == {};
    }
  }

  lemma OrderedHead(view: View, q: seq<nat>, x: nat)
    requires Ordered(view, q) && x in q
    ensures x == q[0] || Better(view[q[0]], view[x])
  {
    var i :| 0 <= i < |q| && q[i] == x;
    if i > 0 {
      assert Better(view[q[0]], view[q[i]]);
    }
  }

  lemma OrderedTail(view: View, q: seq<nat>)
    requires Ordered(view, q) && |q| > 0
    ensures Ordered(view, q[1..]) && q[0] !in q[1..]
    ensures forall x :: x in q[1..] <==> x in q && x != q[0]
  {
    OrderedIsDistinct(view, q);
    assert q == [q[0]] + q[1..];
  }

  /** A set of nodes has only one ranking. */
  lemma {:induction false} OrderedUnique(view: View, p: seq<nat>, q: seq<nat>)
    requires Ordered(view, p) && Ordered(view, q)
    requires forall x :: x in p <==> x in q
    ensures p == q
  {
    assert (|p| > 0 ==> p[0] in q) && (|q| > 0 ==> q[0] in p);
    if |p| > 0 && |q| > 0 {
      OrderedHead(view, p, q[0]);
      OrderedHead(view, q, p[0]);
      OrderedTail(view, p);
      OrderedTail(view, q);
      OrderedUnique(view, p[1..], q[1..]);
      assert p == [p[0]] + p[1..] && q == [q[0]] + q[1..];
    }
  }

  /** Empty a queue, worst first, and sort what came out. */
  method PopAll(view: View, queue: seq<nat>, first: nat, context: SearchContext)
    returns (stop: Option<StopReason>, result: seq<nat>)
    requires DistinctIds(view) && Ordered(view, queue) && context.Prompt(first)
    modifies context
    ensures stop == None ==> result == queue && context.now == old(context.now) + |queue|
    ensures context.Stands(stop, 0) && context.now >= old(context.now)
  {
    var left, remaining := queue, first;
    stop, result := None, [];
    while left != []
      invariant context.Prompt(remaining) && context.now == old(context.now) + |queue| - |left|
      invariant left <= queue
      invariant InRange(view, result) && Distinct(result)
      invariant forall x :: x in left || x in result <==> x in queue
      invariant forall x :: x in left ==> x !in result
    {
      stop, remaining := context.Checkpoint(remaining);
      if stop.Some? {
        return;
      }
      OrderedIsDistinct(view, queue);
      var last := left[|left| - 1];
      assert last in left && last !in result;
      assert left == left[..|left| - 1] + [last];
      result := result + [last];
      left := left[..|left| - 1];
    }
    result := Sort(view, result);
    OrderedUnique(view, result, queue);
    stop := None;
  }

  /** What a search result list means: the best `k` of `entries`, in ranking order. */
  ghost predicate IsTopK(r: seq<SearchResult>, entries: set<SearchResult>, k: nat) {
    && (forall i, j :: 0 <= i < j < |r| ==> Better(r[i], r[j]))
    && (forall x :: x in r ==> x in entries)
    && |r| == (if k < |entries| then k else |entries|)
    && (forall x, y :: x in entries && x !in r && y in r ==> Better(y, x))
  }

  lemma TopKHead(r: seq<SearchResult>, entries: set<SearchResult>, k: nat, x: SearchResult)
    requires IsTopK(r, entries, k) && |r| > 0 && x in entries
    ensures x == r[0] || Better(r[0], x)
  {
    assert r[0] in r;
    if x in r {
      var i :| 0 <= i < |r| && r[i] == x;
      if i > 0 {
        assert Better(r[0], r[i]);
      }
    }
  }

  lemma TopKTail(r: seq<SearchResult>, entries: set<SearchResult>, k: nat)
    requires IsTopK(r, entries, k) && |r| > 0
    ensures k > 0 && IsTopK(r[1..], entries - {r[0]}, k - 1)
  {
    assert r[0] in r;
    var t, rest := r[1..], entries - {r[0]};
    assert |rest| == |entries| - 1;
    forall x | x in t ensures x in rest {
      var i :| 0 <= i < |t| && t[i] == x;
      assert r[i + 1] == x && Better(r[0], r[i + 1]);
    }
    forall x, y | x in rest && x !in t && y in t ensures Better(y, x) {
      assert r == [r[0]] + t;
      assert x !in r && y in r;
    }
  }

  /** The top-k list of a set of entries is unique. */
  lemma {:induction false} TopKUnique(r: seq<SearchResult>, s: seq<SearchResult>,
                                      entries: set<SearchResult>, k: nat)
    requires IsTopK(r, entries, k) && IsTopK(s, entries, k)
    ensures r == s
    decreases k
  {
    if |r| > 0 {
      assert r[0] in entries && s[0] in entries by { assert r[0] in r && s[0] in s; }
      TopKHead(r, entries, k, s[0]);
      TopKHead(s, entries, k, r[0]);
      TopKTail(r, entries, k);
      TopKTail(s, entries, k);
      TopKUnique(r[1..], s[1..], entries - {r[0]}, k - 1);
      assert r == [r[0]] + r[1..] && s == [s[0]] + s[1..];
    }
  }
}
