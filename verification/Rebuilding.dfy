/** What a rebuilt index depends on: its live contents and the new seed, and nothing else of the old index. */
module Rebuilding {
  import opened Numbers
  import opened Ranking
  import opened Configuration
  import opened GraphLinks
  import opened HnswState
  import opened HnswOperations
  import opened InsertionPlan

  /** The generator after `n` draws. */
  function Advanced(p: Platform, random: Rng, n: nat): Rng
    decreases n, p
  {
    if n == 0 then random else p.advance(Advanced(p, random, n - 1))
  }

  /** Node `n` has the level that draw `n` of this generator gives. */
  ghost predicate LevelsDrawn(p: Platform, random: Rng, g: Graph) {
    forall n :: 0 <= n < |g| ==>
      |g[n].levels| == Least(p.drawLevel(Advanced(p, random, n)), MAXIMUM_GENERATED_LEVEL) + 1
  }

  lemma InsertedLevelsDrawn(config: Config, p: Platform, s: State, id: VectorId, v: Vector, random: Rng)
    requires Insertable(config, p, s, id, v)
    requires s.random == Advanced(p, random, |s.graph|) && LevelsDrawn(p, random, s.graph)
    ensures var r := Inserted(config, p, s, id, v);
            r.random == Advanced(p, random, |r.graph|) && LevelsDrawn(p, random, r.graph)
  {
    hide Inserted, Insertable, Valid, LevelsDrawn;
    InsertedShape(config, p, s, id, v);
    InsertedFields(config, p, s, id, v);
    OneMoreDrawn(p, s.graph, Inserted(config, p, s, id, v).graph, random);
  }

  lemma OneMoreDrawn(p: Platform, g: Graph, h: Graph, random: Rng)
    requires LevelsDrawn(p, random, g) && |h| == |g| + 1
    requires |h[|g|].levels| == Least(p.drawLevel(Advanced(p, random, |g|)), MAXIMUM_GENERATED_LEVEL) + 1
    requires forall m :: 0 <= m < |g| ==> |h[m].levels| == |g[m].levels|
    ensures LevelsDrawn(p, random, h)
  {
    hide Advanced, Least;
  }

  lemma {:induction false} CopyLevelsDrawn(config: Config, p: Platform, s: State, all: seq<VectorId>, k: nat, r: State,
                                           random: Rng)
    requires CanCopy(config, p, s, all) && k <= |all| && Copied(config, p, s, all, k, r)
    requires r.random == Advanced(p, random, |r.graph|) && LevelsDrawn(p, random, r.graph)
    ensures var t := CopyFrom(config, p, s, all, k, r);
            t.random == Advanced(p, random, |t.graph|) && LevelsDrawn(p, random, t.graph)
    decreases |all| - k
  {
    hide Copied, CopyFrom, LevelsDrawn, Inserted, Advanced;
    CopyFromUnfolds(config, p, s, all, k, r);
    if k < |all| {
      NextIsInsertable(config, p, s, all, k, r);
      InsertedLevelsDrawn(config, p, r, all[k], Stored(s, all[k]), random);
      CopyLevelsDrawn(config, p, s, all, k + 1, CopyNext(config, p, s, all, k, r), random);
    }
  }

  /** A rebuild draws its levels from a generator that starts with the new seed, one for each live vector. */
  lemma RebuiltIsSeeded(config: Config, p: Platform, s: State, seed: nat)
    requires Valid(config, p, s) && seed <= UINT64_MAX
    ensures var r := Rebuilt(config, p, s, seed);
            && r.random == Advanced(p, p.seeded(seed), |r.graph|)
            && LevelsDrawn(p, p.seeded(seed), r.graph)
  {
    ReadyToCopy(config, p, s, seed);
    hide CanCopy, Copied, CopyFrom, Valid;
    CopyLevelsDrawn(config.(randomSeed := seed), p, s, LiveIds(s), 0, Empty(p.seeded(seed)), p.seeded(seed));
  }

  /** A set has only one ascending enumeration. */
  lemma {:induction false} AscendingUnique(a: seq<VectorId>, b: seq<VectorId>)
    requires Ascending(a) && Ascending(b) && forall x :: x in a <==> x in b
    ensures a == b
  {
    assert (|a| > 0 ==> a[0] in b) && (|b| > 0 ==> b[0] in a);
    if |a| > 0 && |b| > 0 {
      FirstIsLeast(a, b[0]);
      FirstIsLeast(b, a[0]);
      forall x ensures x in a[1..] <==> x in b[1..] {
        InRest(a, x);
        InRest(b, x);
      }
      AscendingUnique(a[1..], b[1..]);
      assert a == [a[0]] + a[1..] && b == [b[0]] + b[1..];
    }
  }

  lemma FirstIsLeast(a: seq<VectorId>, x: VectorId)
    requires Ascending(a) && x in a
    ensures a[0] <= x
  {
    var i :| 0 <= i < |a| && a[i] == x;
    FirstBefore(a, i);
  }

  lemma FirstBefore(a: seq<VectorId>, i: nat)
    requires Ascending(a) && i < |a|
    ensures a[0] <= a[i]
  {
  }

  lemma InRest(a: seq<VectorId>, x: VectorId)
    requires Ascending(a) && |a| > 0
    ensures x in a[1..] <==> x in a && x != a[0]
  {
    assert a == [a[0]] + a[1..];
  }

  lemma {:induction false} CopiesAgree(config: Config, p: Platform, s: State, t: State, all: seq<VectorId>, k: nat,
                                       r: State)
    requires CanCopy(config, p, s, all) && CanCopy(config, p, t, all) && k <= |all|
    requires Copied(config, p, s, all, k, r) && Copied(config, p, t, all, k, r)
    requires forall i :: 0 <= i < |all| ==> Stored(s, all[i]) == Stored(t, all[i])
    ensures CopyFrom(config, p, s, all, k, r) == CopyFrom(config, p, t, all, k, r)
    decreases |all| - k
  {
    hide Copied, CopyFrom, Inserted, Insertable;
    CopyFromUnfolds(config, p, s, all, k, r);
    CopyFromUnfolds(config, p, t, all, k, r);
    if k < |all| {
      CopiesAgree(config, p, s, t, all, k + 1, CopyNext(config, p, s, all, k, r));
    }
  }

  lemma LiveContentsAgree(config: Config, p: Platform, s: State, t: State)
    requires Valid(config, p, s) && Valid(config, p, t)
    requires |s.vectors| == |s.graph| && |t.vectors| == |t.graph| && LiveContents(s) == LiveContents(t)
    ensures LiveIds(s) == LiveIds(t)
    ensures forall id :: id in LiveIds(s) ==> IsLive(s, id) && IsLive(t, id) && Stored(s, id) == Stored(t, id)
  {
    LiveIdsAreLive(config, p, s);
    LiveIdsAreLive(config, p, t);
    hide Valid, LiveIds;
    forall id: VectorId ensures IsLive(s, id) <==> IsLive(t, id) {
      assert id in LiveContents(s) <==> id in LiveContents(t);
    }
    AscendingUnique(LiveIds(s), LiveIds(t));
    forall id | id in LiveIds(s) ensures Stored(s, id) == Stored(t, id) {
      assert LiveContents(s)[id] == LiveContents(t)[id];
    }
  }

  /** Indexes with the same live contents are rebuilt into one and the same index, whatever their graphs, tombstones
      and histories. */
  lemma RebuildIsCanonical(config: Config, p: Platform, s: State, t: State, seed: nat)
    requires Valid(config, p, s) && Valid(config, p, t) && seed <= UINT64_MAX
    requires |s.vectors| == |s.graph| && |t.vectors| == |t.graph| && LiveContents(s) == LiveContents(t)
    ensures Rebuilt(config, p, s, seed) == Rebuilt(config, p, t, seed)
  {
    var c := config.(randomSeed := seed);
    ReadyToCopy(config, p, s, seed);
    ReadyToCopy(config, p, t, seed);
    LiveContentsAgree(config, p, s, t);
    hide Valid, LiveIds, LiveContents, Copied, CopyFrom;
    CopiesAgree(c, p, s, t, LiveIds(s), 0, Empty(p.seeded(seed)));
  }
}
