/** The offline rebuild: load a file, rebuild it, compare both indexes, and save the result. */
module RebuildTool {
  import opened Wrappers
  import opened Ranking
  import opened Configuration
  import opened GraphLinks
  import opened HnswState
  import opened HnswOperations
  import opened MutualLinks
  import opened Equivalence
  import opened Hnsw
  import opened Bytes
  import opened HnswFormat
  import opened HnswSnapshot
  import opened HnswVersions
  import HnswSaving
  import HnswLoading

  datatype RebuildOutcome = InputRejected | MemoryExhausted | VerificationFailed | NotSaved | Saved(file: seq<byte>)

  lemma {:induction false} AscendingUnique(a: seq<VectorId>, b: seq<VectorId>)
    requires Ascending(a) && Ascending(b) && forall x :: x in a <==> x in b
    ensures a == b
  {
    assert (|a| > 0 ==> a[0] in b) && (|b| > 0 ==> b[0] in a);
    if |a| > 0 && |b| > 0 {
      SmallestFirst(a, b[0]);
      SmallestFirst(b, a[0]);
      SmallerTail(a);
      SmallerTail(b);
      AscendingUnique(a[1..], b[1..]);
      assert a == [a[0]] + a[1..] && b == [b[0]] + b[1..];
    }
  }

  lemma SmallestFirst(a: seq<VectorId>, x: VectorId)
    requires Ascending(a) && x in a
    ensures a[0] <= x
  {
  }

  lemma SmallerTail(a: seq<VectorId>)
    requires Ascending(a) && a != []
    ensures Ascending(a[1..]) && forall x :: x in a[1..] <==> x in a && x != a[0]
  {
    assert a == [a[0]] + a[1..];
  }

  /** The live nodes among the first `n`. */
  ghost function LiveBelow(g: Graph, n: nat): set<nat> {
    set m | m in Eligible(g, true) && m < n
  }

  lemma {:induction false} LiveIdsCount(s: State, n: nat)
    requires n <= |s.ids| == |s.graph|
    ensures |LiveIdsBelow(s, n)| == |LiveBelow(s.graph, n)|
  {
    if n == 0 {
      assert LiveBelow(s.graph, 0) == {};
    } else {
      LiveIdsCount(s, n - 1);
      assert LiveBelow(s.graph, n)
          == if s.graph[n - 1].deleted then LiveBelow(s.graph, n - 1) else LiveBelow(s.graph, n - 1) + {n - 1};
    }
  }

  /** There are as many live IDs as `size()` says. */
  lemma LiveIdsAreAll(config: Config, p: Platform, s: State)
    requires Valid(config, p, s)
    ensures |s.ids| == |s.graph| && |LiveIds(s)| == |s.ids| - s.deletedCount
  {
    LiveIdsCount(s, |s.ids|);
    LiveCount(config, p, s);
    assert LiveBelow(s.graph, |s.ids|) == Eligible(s.graph, true);
  }

  /** What the tool compares always agrees: live IDs, no tombstones, node count against live count. */
  lemma RebuiltPasses(config: Config, p: Platform, s: State, seed: nat)
    requires Valid(config, p, s) && seed <= UINT64_MAX
    ensures |s.ids| == |s.graph|
    ensures var r := Rebuilt(config, p, s, seed);
            && |r.ids| == |r.graph| && LiveIds(r) == LiveIds(s) && r.deletedCount == 0
            && |r.ids| == |s.ids| - s.deletedCount
  {
    hide Valid, Rebuilt, LiveIds;
    var c, r := config.(randomSeed := seed), Rebuilt(config, p, s, seed);
    RebuiltIsDense(config, p, s, seed);
    LiveIdsAreAll(config, p, s);
    LiveIdsAreAll(c, p, r);
    LiveIdsAreLive(config, p, s);
    LiveIdsAreLive(c, p, r);
    RebuiltInverse(c, p, r);
    AscendingUnique(LiveIds(r), LiveIds(s));
  }

  /** Rebuilding a file of any version, whatever is wrong with its links, either runs out of memory or yields a whole
      index with the same live IDs: the tool's own comparison never fails. */
  method RebuildFile(data: seq<byte>, seed: Option<nat>, p: Platform, t: TextCodec, alloc: Allocator)
    returns (r: RebuildOutcome)
    requires seed.Some? ==> seed.value <= UINT64_MAX
    modifies alloc
    ensures r == InputRejected <==> LoadAny(data, p, t).None?
    ensures r != VerificationFailed
    ensures old(alloc.NeverFails()) ==> r != MemoryExhausted
    ensures r.Saved? || r == NotSaved ==>
      && LoadAny(data, p, t).Some?
      && var (config, s) := LoadAny(data, p, t).value;
         && config.randomSeed <= UINT64_MAX && Valid(config, p, s)
         && var used := if seed.Some? then seed.value else config.randomSeed;
            var c, rebuilt := config.(randomSeed := used), Rebuilt(config, p, s, used);
            && Intact(c, p, rebuilt) && Shaped(c, rebuilt)
            && Save(c, rebuilt, t) == if r.Saved? then Some(r.file) else None
  {
    hide LoadAny, HnswState.Valid, Rebuilt, LiveIds, Mutual, HnswSnapshot.Save;
    var source := HnswLoading.Load(data, p, t);
    if source == null {
      return InputRejected;
    }
    SeedFits(source.config, p, source.Logical());
    var used := if seed.Some? then seed.value else source.config.randomSeed;
    ghost var s := source.Logical();
    RebuiltPasses(source.config, p, s, used);
    RebuiltIsMutual(source.config, p, s, used);
    var rebuilt := source.Rebuild(used, alloc);
    if rebuilt == null {
      return MemoryExhausted;
    }
    var before := source.LiveIdList();
    var after := rebuilt.LiveIdList();
    if before != after || rebuilt.deletedCount != 0 || |rebuilt.ids| != |source.ids| - source.deletedCount {
      return VerificationFailed;
    }
    ValidIsShaped(rebuilt.config, p, rebuilt.Logical());
    var file := HnswSaving.Save(rebuilt, t);
    r := if file.Some? then Saved(file.value) else NotSaved;
  }

  lemma SeedFits(config: Config, p: Platform, s: State)
    requires Valid(config, p, s)
    ensures config.randomSeed <= UINT64_MAX
  {
  }
}
