/** Choosing graph neighbours from a ranked candidate list (`select_neighbors`). */
module NeighborSelection {
  import opened Numbers
  import opened Ranking
  import opened LayerSearch
  import opened Configuration

  /** How similar the vector of `a` finds the stored vector of `b`. */
  function Between(p: Platform, vectors: seq<Vector>, a: nat, b: nat): int
    requires a < |vectors| && b < |vectors|
  {
    p.similarity(vectors[a], vectors[b])
  }

  /** No selected node is at least as similar to the candidate as the query is. */
  predicate IsDiverse(p: Platform, vectors: seq<Vector>, view: View, selected: seq<nat>, c: nat)
    requires |vectors| == |view| && c < |view| && InRange(view, selected)
  {
    forall i :: 0 <= i < |selected| ==> Between(p, vectors, c, selected[i]) < view[c].score
  }

  datatype Split = Split(selected: seq<nat>, pruned: seq<nat>)

  /** First loop of the diversity rule: selected candidates and rejected ones, in rank order. */
  function Divide(p: Platform, vectors: seq<Vector>, view: View, candidates: seq<nat>, count: nat,
                  s: Split): (r: Split)
    requires |vectors| == |view| && InRange(view, candidates)
    requires InRange(view, s.selected) && InRange(view, s.pruned) && |s.selected| <= count
    ensures InRange(view, r.selected) && InRange(view, r.pruned) && |r.selected| <= count
    ensures |r.selected| + |r.pruned| == |s.selected| + |s.pruned| + |candidates|
    decreases |candidates|
  {
    if candidates == [] then s else
      var c := candidates[0];
      Divide(p, vectors, view, candidates[1..], count,
             if IsDiverse(p, vectors, view, s.selected, c) && |s.selected| < count
             then s.(selected := s.selected + [c])
             else s.(pruned := s.pruned + [c]))
  }

  function DivideAll(p: Platform, vectors: seq<Vector>, view: View, candidates: seq<nat>, count: nat): (r: Split)
    requires |vectors| == |view| && InRange(view, candidates)
    ensures InRange(view, r.selected) && InRange(view, r.pruned) && |r.selected| <= count
    ensures |r.selected| + |r.pruned| == |candidates|
  {
    Divide(p, vectors, view, candidates, count, Split([], []))
  }

  function Select(p: Platform, selection: Selection, vectors: seq<Vector>, view: View,
                  candidates: seq<nat>, maximumCount: nat): (r: seq<nat>)
    requires |vectors| == |view| && InRange(view, candidates)
    ensures |r| == Least(maximumCount, |candidates|) && InRange(view, r)
  {
    var count := Least(maximumCount, |candidates|);
    match selection
    case Simple => candidates[..count]
    case Heuristic =>
      var s := DivideAll(p, vectors, view, candidates, count);
      s.selected + s.pruned[..count - |s.selected|]
  }

  /** The selection is a set of distinct candidates, as many as asked for or all there are. */
  lemma SelectIsSubset(p: Platform, selection: Selection, vectors: seq<Vector>, view: View,
                       candidates: seq<nat>, maximumCount: nat)
    requires |vectors| == |view| && Ordered(view, candidates)
    ensures var r := Select(p, selection, vectors, view, candidates, maximumCount);
            && Distinct(r)
            && (forall x :: x in r ==> x in candidates)
            && |r| == Least(maximumCount, |candidates|)
  {
    OrderedIsDistinct(view, candidates);
    if selection == Heuristic {
      var count := Least(maximumCount, |candidates|);
      AllAreDivided(p, vectors, view, candidates, count);
      var s := DivideAll(p, vectors, view, candidates, count);
      OrderedIsDistinct(view, s.selected);
      OrderedIsDistinct(view, s.pruned);
      DistinctJoin(s.selected, s.pruned, count - |s.selected|);
      assert forall x :: x in s.pruned[..count - |s.selected|] ==> x in s.pruned;
    }
  }

  lemma DistinctJoin(a: seq<nat>, b: seq<nat>, k: nat)
    requires Distinct(a) && Distinct(b) && k <= |b|
    requires forall x :: x in a ==> x !in b
    ensures Distinct(a + b[..k])
  {
    forall i, j | 0 <= i < j < |a + b[..k]| ensures (a + b[..k])[i] != (a + b[..k])[j] {
      if i < |a| <= j {
        assert a[i] in a && b[j - |a|] in b;
      }
    }
  }

  /** The nearest-neighbour rule takes the best: nothing left out ranks above anything taken. */
  lemma SimpleTakesBest(p: Platform, vectors: seq<Vector>, view: View, candidates: seq<nat>,
                        maximumCount: nat, x: nat, y: nat)
    requires |vectors| == |view| && Ordered(view, candidates)
    requires x in Select(p, Simple, vectors, view, candidates, maximumCount)
    requires y in candidates && y !in Select(p, Simple, vectors, view, candidates, maximumCount)
    ensures Better(view[x], view[y])
  {
  }

  /** Later picks are diverse with respect to all earlier ones. */
  ghost predicate PairwiseDiverse(p: Platform, vectors: seq<Vector>, view: View, selected: seq<nat>)
    requires |vectors| == |view| && InRange(view, selected)
  {
    forall i, j :: 0 <= i < j < |selected| ==>
      Between(p, vectors, selected[j], selected[i]) < view[selected[j]].score
  }

  /** Why `c` was rejected: too close to a better pick, or no slot was left. */
  ghost predicate Cause(p: Platform, vectors: seq<Vector>, view: View, count: nat, selected: seq<nat>, c: nat)
    requires |vectors| == |view| && InRange(view, selected) && c < |view|
  {
    || (|selected| == count && forall x :: x in selected ==> Better(view[x], view[c]))
    || exists i :: 0 <= i < |selected| && Better(view[selected[i]], view[c])
         && Between(p, vectors, c, selected[i]) >= view[c].score
  }

  ghost predicate RejectedForCause(p: Platform, vectors: seq<Vector>, view: View, count: nat, s: Split)
    requires |vectors| == |view| && InRange(view, s.selected) && InRange(view, s.pruned)
  {
    forall i :: 0 <= i < |s.pruned| ==> Cause(p, vectors, view, count, s.selected, s.pruned[i])
  }

  ghost predicate Dividing(p: Platform, vectors: seq<Vector>, view: View, done: seq<nat>, count: nat, s: Split) {
    && |vectors| == |view| && InRange(view, done)
    && Ordered(view, s.selected) && Ordered(view, s.pruned)
    && |s.selected| <= count
    && (forall x :: x in s.selected || x in s.pruned <==> x in done)
    && (forall x :: x in s.selected ==> x !in s.pruned)
    && PairwiseDiverse(p, vectors, view, s.selected)
    && RejectedForCause(p, vectors, view, count, s)
  }

  lemma {:induction false} DivideKeeps(p: Platform, vectors: seq<Vector>, view: View, all: seq<nat>,
                                       done: seq<nat>, todo: seq<nat>, count: nat, s: Split)
    requires Ordered(view, all) && all == done + todo && InRange(view, todo)
    requires Dividing(p, vectors, view, done, count, s)
    ensures Dividing(p, vectors, view, all, count, Divide(p, vectors, view, todo, count, s))
    decreases |todo|
  {
    if todo == [] {
      assert all == done;
    } else {
      var c := todo[0];
      assert c == all[|done|];
      forall x | x in done ensures Better(view[x], view[c]) && x != c {
        var i :| 0 <= i < |done| && done[i] == x;
        assert Better(view[all[i]], view[all[|done|]]);
      }
      DivideStep(p, vectors, view, done, count, s, c);
      assert all == (done + [c]) + todo[1..];
      DivideKeeps(p, vectors, view, all, done + [c], todo[1..], count, Next(p, vectors, view, count, s, c));
    }
  }

  ghost function Next(p: Platform, vectors: seq<Vector>, view: View, count: nat, s: Split, c: nat): Split
    requires |vectors| == |view| && InRange(view, s.selected) && c < |view|
  {
    if IsDiverse(p, vectors, view, s.selected, c) && |s.selected| < count
    then s.(selected := s.selected + [c])
    else s.(pruned := s.pruned + [c])
  }

  lemma DivideStep(p: Platform, vectors: seq<Vector>, view: View, done: seq<nat>, count: nat, s: Split, c: nat)
    requires Dividing(p, vectors, view, done, count, s) && c < |view|
    requires forall x :: x in done ==> Better(view[x], view[c]) && x != c
    ensures Dividing(p, vectors, view, done + [c], count, Next(p, vectors, view, count, s, c))
  {
    assert forall x :: x in s.selected || x in s.pruned <==> x in done;
    if IsDiverse(p, vectors, view, s.selected, c) && |s.selected| < count {
      AppendOrdered(view, s.selected, c);
      forall i | 0 <= i < |s.pruned| ensures Cause(p, vectors, view, count, s.selected + [c], s.pruned[i]) {
        CauseStays(p, vectors, view, count, s.selected, c, s.pruned[i]);
      }
    } else {
      AppendOrdered(view, s.pruned, c);
      CauseForNew(p, vectors, view, count, s.selected, c);
    }
  }

  lemma AppendOrdered(view: View, q: seq<nat>, c: nat)
    requires Ordered(view, q) && c < |view| && forall x :: x in q ==> Better(view[x], view[c])
    ensures Ordered(view, q + [c])
  {
  }

  lemma CauseForNew(p: Platform, vectors: seq<Vector>, view: View, count: nat, selected: seq<nat>, c: nat)
    requires |vectors| == |view| && InRange(view, selected) && c < |view| && |selected| <= count
    requires forall x :: x in selected ==> Better(view[x], view[c])
    requires !IsDiverse(p, vectors, view, selected, c) || |selected| >= count
    ensures Cause(p, vectors, view, count, selected, c)
  {
  }

  lemma CauseStays(p: Platform, vectors: seq<Vector>, view: View, count: nat, selected: seq<nat>, c: nat, d: nat)
    requires |vectors| == |view| && InRange(view, selected) && c < |view| && d < |view|
    requires |selected| < count && Cause(p, vectors, view, count, selected, d)
    ensures Cause(p, vectors, view, count, selected + [c], d)
  {
    var i :| 0 <= i < |selected| && Better(view[selected[i]], view[d])
             && Between(p, vectors, d, selected[i]) >= view[d].score;
    assert (selected + [c])[i] == selected[i];
  }

  /** What the diversity rule makes of some candidates, said of the result alone. Its first `j` nodes are pairwise
      diverse and every other candidate was passed over for cause; the rest are the best of those. */
  ghost predicate DiverseChoice(p: Platform, vectors: seq<Vector>, view: View, candidates: seq<nat>, r: seq<nat>,
                                j: nat)
  {
    && |vectors| == |view| && InRange(view, candidates) && InRange(view, r) && j <= |r|
    && Distinct(r) && (forall x :: x in r ==> x in candidates)
    && Ordered(view, r[..j]) && Ordered(view, r[j..])
    && PairwiseDiverse(p, vectors, view, r[..j])
    && (forall i :: 0 <= i < |candidates| && candidates[i] !in r[..j] ==>
          Cause(p, vectors, view, |r|, r[..j], candidates[i]))
    && (forall i, x :: 0 <= i < |candidates| && candidates[i] !in r && x in r[j..] ==>
          Better(view[x], view[candidates[i]]))
  }

  /** The heuristic's picks are pairwise diverse, every rejection has a reason, and the best of the rejected fill
      the places that are left. */
  lemma HeuristicIsDiverse(p: Platform, vectors: seq<Vector>, view: View, candidates: seq<nat>, maximumCount: nat)
    returns (j: nat)
    requires |vectors| == |view| && Ordered(view, candidates)
    ensures DiverseChoice(p, vectors, view, candidates,
                          Select(p, Heuristic, vectors, view, candidates, maximumCount), j)
  {
    hide Divide, DivideAll, Dividing, DiverseChoice, Ordered;
    var count := Least(maximumCount, |candidates|);
    AllAreDivided(p, vectors, view, candidates, count);
    var s := DivideAll(p, vectors, view, candidates, count);
    j := |s.selected|;
    SplitIsDiverse(p, vectors, view, candidates, count, s);
  }

  lemma AllAreDivided(p: Platform, vectors: seq<Vector>, view: View, candidates: seq<nat>, count: nat)
    requires |vectors| == |view| && Ordered(view, candidates)
    ensures InRange(view, candidates)
    ensures Dividing(p, vectors, view, candidates, count, DivideAll(p, vectors, view, candidates, count))
  {
    DivideKeeps(p, vectors, view, candidates, [], candidates, count, Split([], []));
  }

  lemma SplitIsDiverse(p: Platform, vectors: seq<Vector>, view: View, candidates: seq<nat>, count: nat, s: Split)
    requires Dividing(p, vectors, view, candidates, count, s)
    requires count - |s.selected| <= |s.pruned|
    ensures DiverseChoice(p, vectors, view, candidates, s.selected + s.pruned[..count - |s.selected|], |s.selected|)
  {
    hide Cause, PairwiseDiverse, Better;
    var j, k := |s.selected|, count - |s.selected|;
    var r := s.selected + s.pruned[..k];
    OrderedIsDistinct(view, s.selected);
    OrderedIsDistinct(view, s.pruned);
    DistinctJoin(s.selected, s.pruned, k);
    assert r[..j] == s.selected && r[j..] == s.pruned[..k];
    forall i | 0 <= i < |candidates| && candidates[i] !in s.selected
      ensures Cause(p, vectors, view, count, s.selected, candidates[i])
    {
      RejectedHasCause(p, vectors, view, candidates, count, s, i);
    }
    forall i, x | 0 <= i < |candidates| && candidates[i] !in r && x in r[j..]
      ensures Better(view[x], view[candidates[i]])
    {
      assert candidates[i] in candidates;
      LeftOutRanksBelow(view, s.pruned, k, x, candidates[i]);
    }
  }

  lemma RejectedHasCause(p: Platform, vectors: seq<Vector>, view: View, candidates: seq<nat>, count: nat, s: Split,
                         i: nat)
    requires Dividing(p, vectors, view, candidates, count, s) && i < |candidates| && candidates[i] !in s.selected
    ensures Cause(p, vectors, view, count, s.selected, candidates[i])
  {
    hide Cause;
    assert candidates[i] in candidates;
    var l :| 0 <= l < |s.pruned| && s.pruned[l] == candidates[i];
    assert Cause(p, vectors, view, count, s.selected, s.pruned[l]);
  }

  lemma LeftOutRanksBelow(view: View, q: seq<nat>, k: nat, x: nat, y: nat)
    requires Ordered(view, q) && k <= |q| && x in q[..k] && y in q && y !in q[..k]
    ensures Better(view[x], view[y])
  {
    var i :| 0 <= i < k && q[..k][i] == x;
    var l :| 0 <= l < |q| && q[l] == y;
    PrefixHolds(q, k, l);
  }

  lemma PrefixHolds(q: seq<nat>, k: nat, l: nat)
    requires k <= |q|
    ensures l < k ==> q[l] in q[..k]
  {
    if l < k {
      assert q[..k][l] == q[l];
    }
  }

  // ---------- There is only one diverse choice ----------

  /** Two choices that agree on all better candidates agree on the next one. */
  lemma NextPickAgrees(p: Platform, vectors: seq<Vector>, view: View, candidates: seq<nat>, r: seq<nat>, j: nat,
                       q: seq<nat>, k: nat, i: nat)
    requires Ordered(view, candidates) && i < |candidates| && |r| == |q|
    requires DiverseChoice(p, vectors, view, candidates, r, j) && DiverseChoice(p, vectors, view, candidates, q, k)
    requires forall l :: 0 <= l < i && candidates[l] in q[..k] ==> candidates[l] in r[..j]
    ensures candidates[i] in r[..j] ==> candidates[i] in q[..k]
  {
    hide Cause, PairwiseDiverse, Better;
    var c := candidates[i];
    forall x | x in q[..k] && Better(view[x], view[c]) ensures x in r[..j] {
      BetterIsBefore(view, candidates, x, i);
    }
    if c in r[..j] && c !in q[..k] {
      assert Cause(p, vectors, view, |q|, q[..k], c);
      PickHasNoCause(p, vectors, view, r[..j], q[..k], |q|, c);
    }
  }

  lemma BetterIsBefore(view: View, candidates: seq<nat>, x: nat, i: nat)
    requires Ordered(view, candidates) && i < |candidates| && x < |view| && Better(view[x], view[candidates[i]])
    requires x in candidates
    ensures exists l :: 0 <= l < i && candidates[l] == x
  {
    var l :| 0 <= l < |candidates| && candidates[l] == x;
    OrderedPair(view, candidates, i, l);
  }

  lemma OrderedPair(view: View, q: seq<nat>, i: nat, l: nat)
    requires Ordered(view, q) && i < |q| && l < |q|
    ensures i < l ==> Better(view[q[i]], view[q[l]])
  {
  }

  /** Diverse picks leave no cause to pass over one of them. */
  lemma PickHasNoCause(p: Platform, vectors: seq<Vector>, view: View, picks: seq<nat>, others: seq<nat>, count: nat,
                       c: nat)
    requires |vectors| == |view| && Ordered(view, picks) && Ordered(view, others)
    requires PairwiseDiverse(p, vectors, view, picks)
    requires c in picks && c !in others && |picks| <= count && c < |view|
    requires forall x :: x in others && Better(view[x], view[c]) ==> x in picks
    ensures !Cause(p, vectors, view, count, others, c)
  {
    var d :| 0 <= d < |picks| && picks[d] == c;
    forall i | 0 <= i < |others| && Better(view[others[i]], view[c])
      ensures Between(p, vectors, c, others[i]) < view[c].score
    {
      assert others[i] in others;
      BetterIsBefore(view, picks, others[i], d);
    }
    if |others| == count && forall x :: x in others ==> Better(view[x], view[c]) {
      OrderedIsDistinct(view, picks);
      OrderedIsDistinct(view, others);
      DistinctCount(picks);
      DistinctCount(others);
      SubsetSize(Elements(others), Elements(picks) - {c});
    }
  }

  lemma {:induction false} PicksAgree(p: Platform, vectors: seq<Vector>, view: View, candidates: seq<nat>, r: seq<nat>,
                                      j: nat, q: seq<nat>, k: nat, i: nat)
    requires Ordered(view, candidates) && i <= |candidates| && |r| == |q|
    requires DiverseChoice(p, vectors, view, candidates, r, j) && DiverseChoice(p, vectors, view, candidates, q, k)
    ensures forall l :: 0 <= l < i ==> (candidates[l] in r[..j] <==> candidates[l] in q[..k])
  {
    hide DiverseChoice, Ordered;
    if i > 0 {
      PicksAgree(p, vectors, view, candidates, r, j, q, k, i - 1);
      NextPickAgrees(p, vectors, view, candidates, r, j, q, k, i - 1);
      NextPickAgrees(p, vectors, view, candidates, q, k, r, j, i - 1);
    }
  }

  /** The candidates and how many to take determine the choice completely. */
  lemma OneDiverseChoice(p: Platform, vectors: seq<Vector>, view: View, candidates: seq<nat>, r: seq<nat>, j: nat,
                         q: seq<nat>, k: nat)
    requires Ordered(view, candidates) && |r| == |q|
    requires DiverseChoice(p, vectors, view, candidates, r, j) && DiverseChoice(p, vectors, view, candidates, q, k)
    ensures r == q && j == k
  {
    hide Cause, PairwiseDiverse, Better;
    PicksAgree(p, vectors, view, candidates, r, j, q, k, |candidates|);
    forall x ensures x in r[..j] <==> x in q[..k] {
      if x in candidates {
        var l :| 0 <= l < |candidates| && candidates[l] == x;
      }
    }
    OrderedUnique(view, r[..j], q[..k]);
    FillAgrees(p, vectors, view, candidates, r, q, j);
    FillAgrees(p, vectors, view, candidates, q, r, j);
    OrderedUnique(view, r[j..], q[j..]);
    assert r == r[..j] + r[j..] && q == q[..j] + q[j..];
  }

  lemma FillAgrees(p: Platform, vectors: seq<Vector>, view: View, candidates: seq<nat>, r: seq<nat>, q: seq<nat>,
                   j: nat)
    requires DiverseChoice(p, vectors, view, candidates, r, j) && DiverseChoice(p, vectors, view, candidates, q, j)
    requires |r| == |q| && r[..j] == q[..j]
    ensures forall x :: x in r[j..] ==> x in q[j..]
  {
    ChoiceIsDistinct(p, vectors, view, candidates, r, j);
    ChoiceIsDistinct(p, vectors, view, candidates, q, j);
    hide DiverseChoice, Ordered;
    forall x | x in r[j..] ensures x in q[j..] {
      NotInHead(r, j, x);
      if x !in q[j..] {
        InTail(q, j, x);
        forall y | y in q[j..] ensures y in r[j..] && y != x {
          NotInHead(q, j, y);
          FillContains(p, vectors, view, candidates, r, q, j, x, y);
          InTail(r, j, y);
        }
        TailIsDistinct(r, j);
        TailIsDistinct(q, j);
        SubsetSize(Elements(q[j..]), Elements(r[j..]) - {x});
      }
    }
  }

  /** Whatever one choice fills up with, another choice that lacks one of its nodes has taken instead. */
  lemma FillContains(p: Platform, vectors: seq<Vector>, view: View, candidates: seq<nat>, r: seq<nat>, q: seq<nat>,
                     j: nat, x: nat, y: nat)
    requires DiverseChoice(p, vectors, view, candidates, r, j) && DiverseChoice(p, vectors, view, candidates, q, j)
    requires x in r[j..] && x !in q && y in q[j..]
    ensures y in r
  {
    hide Cause, PairwiseDiverse;
    assert x in r && y in q;
    var i :| 0 <= i < |candidates| && candidates[i] == x;
    var l :| 0 <= l < |candidates| && candidates[l] == y;
  }

  lemma ChoiceIsDistinct(p: Platform, vectors: seq<Vector>, view: View, candidates: seq<nat>, r: seq<nat>, j: nat)
    requires DiverseChoice(p, vectors, view, candidates, r, j)
    ensures Distinct(r) && j <= |r|
  {
  }

  lemma InTail(r: seq<nat>, j: nat, x: nat)
    requires j <= |r|
    ensures x in r && x !in r[..j] ==> x in r[j..]
  {
    assert r == r[..j] + r[j..];
  }

  lemma TailIsDistinct(r: seq<nat>, j: nat)
    requires Distinct(r) && j <= |r|
    ensures |Elements(r[j..])| == |r| - j
  {
    DistinctCount(r[j..]);
  }

  lemma NotInHead(r: seq<nat>, j: nat, x: nat)
    requires Distinct(r) && j <= |r| && x in r[j..]
    ensures x !in r[..j] && x in r
  {
  }
}
