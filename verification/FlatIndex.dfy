/** The exact index: dense rows with swap-and-pop deletion and a bounded-heap scan. It refines a
    finite map from IDs to vectors and the ranking of all its entries. */
module Flat {
  import opened Wrappers
  import opened SearchContextModel
  import opened Numbers
  import opened Ranking
  import opened Reachability
  import opened LayerSearch
  import opened Configuration
  import opened HnswState
  import opened HnswOperations
  import opened Hnsw

  /** What a scan of `contents` must answer. */
  ghost predicate Answers(dimension: nat, p: Platform, contents: map<VectorId, Vector>, query: Vector, k: nat,
                          r: SearchOutcome)
  {
    if k == 0 then r == Found([])
    else if |query| != dimension || p.normalize(query).Rejected? then r == InvalidArgument
    else r.Found? && IsTopK(r.results, Entries(p, contents, p.normalize(query).vector), k)
  }

  ghost function ContentsOf(ids: seq<VectorId>, idToRow: map<VectorId, nat>, vectors: seq<Vector>)
    : map<VectorId, Vector>
    requires IdsOk(ids, idToRow) && |vectors| == |ids|
  {
    map id | id in idToRow :: vectors[idToRow[id]]
  }

  lemma GrownContents(ids: seq<VectorId>, idToRow: map<VectorId, nat>, vectors: seq<Vector>, id: VectorId, v: Vector)
    requires IdsOk(ids, idToRow) && |vectors| == |ids| && id !in idToRow
    ensures IdsOk(ids + [id], idToRow[id := |ids|])
    ensures ContentsOf(ids + [id], idToRow[id := |ids|], vectors + [v]) == ContentsOf(ids, idToRow, vectors)[id := v]
  {
    IdsGrow(ids, idToRow, id);
  }

  lemma UnknownId(ids: seq<VectorId>, idToRow: map<VectorId, nat>, id: VectorId)
    requires IdsOk(ids, idToRow) && id !in idToRow
    ensures id !in ids
  {
  }

  /** The arrays after the last row took the place of row `row`, and the contents they stand for. */
  lemma ShrunkContents(ids: seq<VectorId>, idToRow: map<VectorId, nat>, vectors: seq<Vector>, row: nat)
    requires IdsOk(ids, idToRow) && |vectors| == |ids| && row < |ids|
    ensures var last := |ids| - 1;
            var ids' := ids[row := ids[last]][..last];
            var vectors' := vectors[row := vectors[last]][..last];
            var idToRow' := idToRow[ids[last] := row] - {ids[row]};
            && IdsOk(ids', idToRow') && |vectors'| == |ids'|
            && ContentsOf(ids', idToRow', vectors') == ContentsOf(ids, idToRow, vectors) - {ids[row]}
  {
    var last := |ids| - 1;
    var ids' := ids[row := ids[last]][..last];
    var idToRow' := idToRow[ids[last] := row] - {ids[row]};
    forall id | id in idToRow' ensures idToRow'[id] < |ids'| && ids'[idToRow'[id]] == id {
      assert ids[idToRow[id]] == id;
    }
  }

  class FlatIndex {
    const dimension: nat
    const platform: Platform
    var vectors: seq<Vector>
    var ids: seq<VectorId>
    var idToRow: map<VectorId, nat>

    /** The ID-to-row map is the exact inverse of the ID array, and each row is a unit vector. */
    ghost predicate Valid()
      reads this
    {
      && dimension > 0
      && |vectors| == |ids|
      && (forall r :: 0 <= r < |vectors| ==> |vectors[r]| == dimension && platform.unitNorm(vectors[r]))
      && IdsOk(ids, idToRow)
    }

    /** The abstract value. */
    ghost function Contents(): map<VectorId, Vector>
      requires Valid()
      reads this
    {
      ContentsOf(ids, idToRow, vectors)
    }

    constructor (dimension: nat, platform: Platform)
      requires dimension > 0
      ensures Valid() && Contents() == map[]
      ensures this.dimension == dimension && this.platform == platform
    {
      this.dimension, this.platform := dimension, platform;
      vectors, ids, idToRow := [], [], map[];
    }

    static method Create(dimension: nat, platform: Platform) returns (r: FlatIndex?)
      ensures r != null <==> dimension > 0
      ensures r != null ==> fresh(r) && r.Valid() && r.Contents() == map[]
                            && r.dimension == dimension && r.platform == platform
    {
      if dimension == 0 {
        r := null;
      } else {
        r := new FlatIndex(dimension, platform);
      }
    }

    /** Either the entry is there afterwards, or nothing has changed, whichever append fails. */
    method Add(id: VectorId, vector: Vector, alloc: Allocator) returns (r: Outcome)
      requires Valid() && LawfulPlatform(platform)
      modifies this, alloc
      ensures Valid()
      ensures r == Done ==>
        platform.normalize(vector).Unit? && Contents() == old(Contents())[id := platform.normalize(vector).vector]
      ensures r != Done ==> ids == old(ids) && vectors == old(vectors) && idToRow == old(idToRow)
      ensures r == InvalidDimension <==> |vector| != dimension
      ensures r == DuplicateId <==> |vector| == dimension && id in old(idToRow)
      ensures r == InvalidVector <==>
        |vector| == dimension && id !in old(idToRow) && platform.normalize(vector).Rejected?
      ensures r != CapacityExceeded && (old(alloc.NeverFails()) ==> r != OutOfMemory)
    {
      if |vector| != dimension {
        return InvalidDimension;
      }
      if id in idToRow {
        return DuplicateId;
      }
      var normalized := platform.normalize(vector);
      if normalized.Rejected? {
        return InvalidVector;
      }
      r := Append(id, normalized.vector, alloc);
    }

    /** The appending half of `add`, with its rollback. */
    method Append(id: VectorId, normalized: Vector, alloc: Allocator) returns (r: Outcome)
      requires Valid() && id !in idToRow && |normalized| == dimension && platform.unitNorm(normalized)
      modifies this, alloc
      ensures Valid()
      ensures r == Done ==> Contents() == old(Contents())[id := normalized]
      ensures r != Done ==> ids == old(ids) && vectors == old(vectors) && idToRow == old(idToRow)
      ensures r == Done || r == OutOfMemory
      ensures old(alloc.NeverFails()) ==> r == Done
    {
      hide IdsOk, ContentsOf;
      UnknownId(ids, idToRow, id);
      GrownContents(ids, idToRow, vectors, id, normalized);
      var ok := alloc.Allocate();
      if !ok {
        return OutOfMemory;
      }
      idToRow := idToRow[id := |ids|];
      ok := alloc.Allocate();
      if ok {
        ids := ids + [id];
        ok := alloc.Allocate();
        if ok {
          vectors := vectors + [normalized];
          return Done;
        }
      }
      Undo(id, old(ids), old(idToRow));
      r := OutOfMemory;
    }

    /** The handler: only the map entry, and perhaps the ID, can have been added. */
    method Undo(id: VectorId, ghost before: seq<VectorId>, ghost rows: map<VectorId, nat>)
      requires id !in before && (ids == before || ids == before + [id])
      requires id !in rows && id in idToRow && idToRow == rows[id := idToRow[id]]
      modifies this`ids, this`idToRow
      ensures ids == before && idToRow == rows
    {
      if ids != [] && ids[|ids| - 1] == id {
        ids := ids[..|ids| - 1];
      }
      idToRow := idToRow - {id};
    }

    /** The last row takes the place of the erased one. */
    method Erase(id: VectorId) returns (removed: bool)
      requires Valid()
      modifies this
      ensures Valid()
      ensures removed == (id in old(idToRow))
      ensures Contents() == old(Contents()) - {id}
    {
      if id !in idToRow {
        return false;
      }
      var row := idToRow[id];
      var lastRow := |ids| - 1;
      ShrunkContents(ids, idToRow, vectors, row);
      hide ContentsOf, IdsOk;
      if row != lastRow {
        var moved := ids[lastRow];
        vectors := vectors[row := vectors[lastRow]];
        ids := ids[row := moved];
        idToRow := idToRow[moved := row];
      }
      vectors := vectors[..|vectors| - 1];
      ids := ids[..lastRow];
      idToRow := idToRow - {id};
      removed := true;
    }

    /** A query with a budget: answered by a complete scan, or interrupted for the reason that a check found. There
        is one call of the context before the scan, one for each row, one for each result and one at the end. */
    method Search(query: Vector, k: nat, context: SearchContext) returns (stop: Option<StopReason>, r: SearchOutcome)
      requires Valid() && context.found == None
      modifies context
      ensures context.interval == 0 ==> stop == None && r == InvalidArgument && context.now == old(context.now)
      ensures context.interval > 0 ==> context.Ended(stop, old(context.now))
      ensures context.interval > 0 && stop == None ==> Answers(dimension, platform, Contents(), query, k, r)
      ensures stop == None && k > 0 && |ids| > 0 && r.Found? ==>
        && context.now == old(context.now) + 2 + |ids| + Least(k, |ids|)
        && forall i :: 0 <= i < |ids| && ChecksAt(context.Enabled(), context.interval, i) ==>
             context.At(old(context.now) + 1 + i) == None
      ensures context.NeverStops() ==> stop == None
    {
      hide IsTopK, Entries, ContentsOf;
      stop, r := None, InvalidArgument;
      if context.interval == 0 {
        return;
      }
      stop := context.Check();
      EndsInTime(context, stop, old(context.now));
      if stop.Some? {
        return;
      }
      if k == 0 {
        return None, Found([]);
      }
      if |query| != dimension {
        return;
      }
      var normalized := platform.normalize(query);
      if normalized.Rejected? {
        return;
      }
      if Least(k, |ids|) == 0 {
        NoRows(normalized.vector, k);
        return None, Found([]);
      }
      var results;
      stop, results := ScanAll(normalized.vector, k, context);
      r := Found(results);
      EndsInTime(context, stop, old(context.now));
    }

    lemma NoRows(q: Vector, k: nat)
      requires Valid() && |ids| == 0
      ensures IsTopK([], Entries(platform, Contents(), q), k)
    {
      ContentsShown(q);
    }

    /** The scan, and the last check. */
    method ScanAll(q: Vector, k: nat, context: SearchContext)
      returns (stop: Option<StopReason>, results: seq<SearchResult>)
      requires Valid() && Least(k, |ids|) > 0 && context.Prompt(0)
      modifies context
      ensures context.now >= old(context.now) && context.now > 0 && stop == context.found == context.At(context.now - 1)
      ensures stop.Some? ==> context.Noticed()
      ensures stop == None ==> IsTopK(results, Entries(platform, Contents(), q), k)
      ensures stop == None ==>
        && context.now == old(context.now) + |ids| + Least(k, |ids|) + 1
        && forall i :: 0 <= i < |ids| && ChecksAt(context.Enabled(), context.interval, i) ==>
             context.At(old(context.now) + i) == None
    {
      hide IsTopK, Shows, LeavesOnlyWorse, Entries, ContentsOf, ChecksAt, Nodes, IdsOk, StopFor, DistinctIds;
      results := [];
      var view := ViewOf(platform, ids, vectors, q);
      ContentsShown(q);
      ShownIsDistinct(view, Nodes(|ids|), Entries(platform, Contents(), q));
      var best;
      stop, best := ScanRows(view, Least(k, |ids|), context);
      if stop.Some? {
        return;
      }
      ResultsAreTopK(view, Nodes(|ids|), Entries(platform, Contents(), q), best, k);
      stop := context.Check();
      results := Results(view, best);
    }

    /** The bounded heap keeps the best rows seen so far. */
    method ScanRows(view: View, resultCount: nat, context: SearchContext)
      returns (stop: Option<StopReason>, results: seq<nat>)
      requires DistinctIds(view) && 0 < resultCount <= |view| && context.Prompt(0)
      modifies context
      ensures context.Stands(stop, 0) && context.now >= old(context.now)
      ensures stop == None ==> Ordered(view, results) && |results| == resultCount
      ensures stop == None ==> LeavesOnlyWorse(view, Nodes(|view|), results)
      ensures stop == None ==>
        && context.now == old(context.now) + |view| + resultCount
        && forall i :: 0 <= i < |view| && ChecksAt(context.Enabled(), context.interval, i) ==>
             context.At(old(context.now) + i) == None
    {
      hide BestOf, ChecksAt, RemainingAfter, StopFor;
      results := [];
      var remaining := 0;
      var heap: seq<nat> := [];
      NoRowsYet(view, resultCount);
      ScanBegins(context.Enabled(), context.interval);
      for i := 0 to |view|
        invariant context.Prompt(remaining) && context.now == old(context.now) + i
        invariant remaining == RemainingAfter(context.Enabled(), context.interval, i)
        invariant forall j :: 0 <= j < i && ChecksAt(context.Enabled(), context.interval, j) ==>
          context.At(old(context.now) + j) == None
        invariant BestOf(view, resultCount, heap, i)
      {
        ScanGoesOn(context.Enabled(), context.interval, i);
        stop, remaining := context.Checkpoint(remaining);
        if stop.Some? {
          return;
        }
        heap := KeepRow(view, resultCount, heap, i);
      }
      BestOfAll(view, resultCount, heap);
      stop, results := PopAll(view, heap, remaining, context);
    }

    /** Row `i` enters the heap if there is room or if it is better than the worst row in it. */
    method KeepRow(view: View, resultCount: nat, heap: seq<nat>, i: nat) returns (next: seq<nat>)
      requires DistinctIds(view) && 0 < resultCount && i < |view| && BestOf(view, resultCount, heap, i)
      ensures BestOf(view, resultCount, next, i + 1)
    {
      next := heap;
      if |heap| < resultCount {
        next := Insert(view, heap, i);
      } else if Better(view[i], view[heap[|heap| - 1]]) {
        next := Insert(view, heap[..|heap| - 1], i);
        ReplaceKeepsBeyond(view, resultCount, heap, i);
      } else {
        RejectedIsBeyond(view, resultCount, heap, i);
      }
      forall j | 0 <= j < |next| ensures next[j] < i + 1 {
        assert next[j] in next;
        assert next[j] == i || next[j] in heap;
      }
    }

    /** Rows show exactly the entries of the contents. */
    lemma ContentsShown(q: Vector)
      requires Valid()
      ensures Shows(ViewOf(platform, ids, vectors, q), Nodes(|ids|), Entries(platform, Contents(), q))
    {
      var view := ViewOf(platform, ids, vectors, q);
      var entries := Entries(platform, Contents(), q);
      forall r | r in Nodes(|ids|) ensures view[r] in entries {
        assert idToRow[ids[r]] == r;
        assert ids[r] in Contents() && Contents()[ids[r]] == vectors[r];
      }
      forall x | x in entries ensures exists r :: r in Nodes(|ids|) && view[r] == x {
        var r := idToRow[x.id];
        assert r in Nodes(|ids|) && view[r] == x;
      }
      ImageSize(view, Nodes(|ids|), entries);
    }
  }

  lemma ShownIsDistinct(view: View, live: set<nat>, entries: set<SearchResult>)
    requires Shows(view, live, entries)
    ensures DistinctIds(view)
  {
  }

  /** Replacing the worst kept row by a better one keeps everything rejected beyond the heap. */
  lemma ReplaceKeepsBeyond(view: View, count: nat, heap: seq<nat>, n: nat)
    requires DistinctIds(view) && Ordered(view, heap) && |heap| == count > 0
    requires n < |view| && n !in heap && Better(view[n], view[Worst(heap)])
    ensures var next := Insert(view, heap[..count - 1], n);
            && Ordered(view, next) && |next| == count
            && Beyond(view, count, next, Worst(heap))
            && (forall r: nat :: r < |view| && Beyond(view, count, heap, r) ==> Beyond(view, count, next, r))
            && (forall r :: r in heap ==> r in next || r == Worst(heap))
  {
    var next := Insert(view, heap[..count - 1], n);
    OrderedIsDistinct(view, heap);
    assert heap == heap[..count - 1] + [Worst(heap)];
    var last := Worst(next);
    assert last in next;
    if last != n { WorstIsLast(view, heap, last); }
  }

  /** The heap after the first `i` rows: the best of them, as many as there is room for. */
  ghost predicate BestOf(view: View, count: nat, heap: seq<nat>, i: nat) {
    && count > 0 && i <= |view|
    && Ordered(view, heap) && |heap| == Least(count, i)
    && (forall j :: 0 <= j < |heap| ==> heap[j] < i)
    && (forall r :: 0 <= r < i && r !in heap ==> Beyond(view, count, heap, r))
  }

  lemma NoRowsYet(view: View, count: nat)
    requires count > 0
    ensures BestOf(view, count, [], 0)
  {
  }

  lemma BestOfAll(view: View, count: nat, heap: seq<nat>)
    requires DistinctIds(view) && BestOf(view, count, heap, |view|) && count <= |view|
    ensures Ordered(view, heap) && |heap| == count && LeavesOnlyWorse(view, Nodes(|view|), heap)
  {
    BeyondMeansWorse(view, count, heap);
  }

  lemma BeyondMeansWorse(view: View, count: nat, heap: seq<nat>)
    requires DistinctIds(view) && Ordered(view, heap) && |heap| == count > 0
    requires forall r: nat :: r < |view| && r !in heap ==> Beyond(view, count, heap, r)
    ensures LeavesOnlyWorse(view, Nodes(|view|), heap)
  {
    forall n, j | n in Nodes(|view|) && n !in heap && 0 <= j < |heap| ensures Better(view[heap[j]], view[n]) {
      assert heap[j] in heap;
      WorstIsLast(view, heap, heap[j]);
    }
  }
}
