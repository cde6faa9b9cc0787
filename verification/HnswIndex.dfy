/** The index object: searching, transactional insertion, tombstones and rebuilding. */
module Hnsw {
  import opened Wrappers
  import opened SearchContextModel
  import opened Numbers
  import opened Ranking
  import opened Reachability
  import opened LayerSearch
  import opened GreedyDescent
  import opened Configuration
  import opened NeighborSelection
  import opened GraphLinks
  import opened HnswState
  import opened HnswOperations
  import opened InsertionJournal

  /** The memory allocator as an oracle: each request consumes one answer, and all succeed once the
      schedule is used up. Every point of failure is some schedule. */
  class Allocator {
    var schedule: seq<bool>

    constructor (schedule: seq<bool>)
      ensures this.schedule == schedule
    {
      this.schedule := schedule;
    }

    ghost predicate NeverFails()
      reads this
    {
      forall i :: 0 <= i < |schedule| ==> schedule[i]
    }

    method Allocate() returns (ok: bool)
      modifies this
      ensures ok == (old(schedule) == [] || old(schedule)[0])
      ensures schedule == if old(schedule) == [] then [] else old(schedule)[1..]
      ensures old(NeverFails()) ==> ok && NeverFails()
    {
      if schedule == [] {
        ok := true;
      } else {
        ok := schedule[0];
        schedule := schedule[1..];
      }
    }
  }

  datatype Outcome = Done | DuplicateId | OutOfMemory | InvalidDimension | InvalidVector | CapacityExceeded

  class HnswIndex {
    const config: Config
    const platform: Platform
    var vectors: seq<Vector>
    var ids: seq<VectorId>
    var graph: Graph
    var idToNode: map<VectorId, nat>
    var random: Rng
    var entryPoint: nat
    var maxLevel: nat
    var deletedCount: nat

    ghost function Logical(): State
      reads this
    {
      State(vectors, ids, graph, idToNode, random, entryPoint, maxLevel, deletedCount)
    }

    ghost predicate Valid()
      reads this
    {
      HnswState.Valid(config, platform, Logical())
    }

    ghost function CurrentContext(): Context
      reads this
    {
      Context(config, platform, ids, vectors)
    }

    constructor (config: Config, platform: Platform)
      requires ValidConfig(config)
      ensures Valid()
      ensures this.config == config && this.platform == platform
      ensures Logical() == Empty(platform.seeded(config.randomSeed))
    {
      this.config, this.platform := config, platform;
      vectors, ids, graph, idToNode := [], [], [], map[];
      random := platform.seeded(config.randomSeed);
      entryPoint, maxLevel, deletedCount := 0, 0, 0;
      new;
      EmptyIsValid(config, platform, random);
    }

    /** Construction throws when the configuration is invalid. */
    static method Create(config: Config, platform: Platform) returns (r: HnswIndex?)
      ensures r != null <==>
        && 0 < config.dimension <= 0xFFFF_FFFF_FFFF_FFFF && 2 <= config.maxConnections <= 0x7FFF_FFFF
        && config.maxConnections <= config.efConstruction <= 0xFFFF_FFFF_FFFF_FFFF
        && 0 < config.efSearch <= 0xFFFF_FFFF_FFFF_FFFF && config.randomSeed <= 0xFFFF_FFFF_FFFF_FFFF
      ensures r != null ==> fresh(r) && r.Valid() && r.config == config && r.platform == platform
                            && r.Logical() == Empty(platform.seeded(config.randomSeed))
    {
      if ValidConfig(config) {
        r := new HnswIndex(config, platform);
      } else {
        r := null;
      }
    }

    function Size(): int
      reads this
    {
      |ids| - deletedCount
    }

    // ---------- Searching ----------

    /** What searching a layer needs: distinct IDs, and links that lead to nodes. */
    ghost predicate CanSearch(level: nat)
      reads this
    {
      |ids| == |vectors| == |graph| && Distinct(ids) && ClosedLinks(Layer(graph, level))
    }

    /** `greedy_search_layer`; the last pass reads the whole list of the node where the walk ends. */
    method GreedySearchLayer(query: Vector, entry: nat, level: nat, context: SearchContext)
      returns (stop: Option<StopReason>, best: nat)
      requires CanSearch(level) && entry < |graph| && context.Prompt(0)
      modifies context
      ensures context.Stands(stop, 0) && context.now >= old(context.now)
      ensures stop == None ==>
        && best == Greedy(ViewOf(platform, ids, vectors, query), Layer(graph, level), entry)
        && context.now >= old(context.now) + |Neighbours(graph, best, level)|
    {
      var view := ViewOf(platform, ids, vectors, query);
      ghost var links := Layer(graph, level);
      stop, best := None, entry;
      var improved, remaining := true, 0;
      while improved
        invariant best < |graph| && stop == None
        invariant context.Prompt(remaining) && context.now >= old(context.now)
        invariant !improved ==> context.now >= old(context.now) + |Neighbours(graph, best, level)|
        invariant Greedy(view, links, best) == Greedy(view, links, entry)
        invariant !improved ==> best == Greedy(view, links, entry)
        decreases improved, |Above(view, best)|
      {
        var from := best;
        stop, best, improved, remaining :=
          ScanNeighbours(view, from, Neighbours(graph, from, level), remaining, context);
        if stop.Some? {
          return;
        }
        if improved {
          AboveShrinks(view, from, best);
        }
      }
    }

    /** The inner loop of `greedy_search_layer`. */
    method ScanNeighbours(view: View, from: nat, list: seq<nat>, first: nat, context: SearchContext)
      returns (stop: Option<StopReason>, best: nat, improved: bool, remaining: nat)
      requires DistinctIds(view) && from < |view| && InRange(view, list) && context.Prompt(first)
      modifies context
      ensures context.Stands(stop, remaining) && context.now >= old(context.now)
      ensures stop == None ==>
        best == Scan(view, from, list) && (improved <==> best != from) && context.now == old(context.now) + |list|
    {
      stop, best, improved, remaining := None, from, false, first;
      for i := 0 to |list|
        invariant best < |view| && stop == None
        invariant context.Prompt(remaining) && context.now == old(context.now) + i
        invariant improved <==> best != from
        invariant best == from || Better(view[best], view[from])
        invariant Scan(view, best, list[i..]) == Scan(view, from, list)
      {
        stop, remaining := context.Checkpoint(remaining);
        if stop.Some? {
          return;
        }
        assert list[i..][0] == list[i] && list[i..][1..] == list[i + 1..];
        if Better(view[list[i]], view[best]) {
          best, improved := list[i], true;
        }
      }
    }

    /** `search_layer`: an interrupted search has no result, any other one exactly the specified one. One call of the
        context comes first, and then at least one for each node looked at and one for each result. */
    method SearchLayer(query: Vector, entry: nat, ef: nat, level: nat, liveOnly: bool, context: SearchContext)
      returns (stop: Option<StopReason>, result: seq<nat>)
      requires CanSearch(level) && entry < |graph| && ef > 0 && context.Prompt(0)
      modifies context
      ensures context.Stands(stop, 0) && context.now >= old(context.now)
      ensures stop == None ==>
        var view := ViewOf(platform, ids, vectors, query);
        && result == LayerSearch.Search(view, Layer(graph, level), Eligible(graph, liveOnly), entry, ef)
        && context.now >= old(context.now) + 1 + |result|
                          + |Visited(view, Layer(graph, level), Eligible(graph, liveOnly), entry, ef)|
    {
      hide LayerSearch.Search, Visited, Eligible;
      result := [];
      stop := context.Check();
      if stop.Some? {
        return;
      }
      var view := ViewOf(platform, ids, vectors, query);
      var best, remaining;
      stop, best, remaining := ExploreLayer(view, entry, ef, level, liveOnly, context);
      if stop == None {
        stop, result := PopAll(view, best, remaining, context);
      }
    }

    /** The main loop of `search_layer`. */
    method ExploreLayer(view: View, entry: nat, ef: nat, level: nat, liveOnly: bool, context: SearchContext)
      returns (stop: Option<StopReason>, best: seq<nat>, remaining: nat)
      requires Searchable(view, Layer(graph, level)) && entry < |view| && ef > 0 && context.Prompt(0)
      modifies context
      ensures context.Stands(stop, remaining) && context.now >= old(context.now)
      ensures stop == None ==>
        && best == LayerSearch.Search(view, Layer(graph, level), Eligible(graph, liveOnly), entry, ef)
        && context.now >= old(context.now) + |Visited(view, Layer(graph, level), Eligible(graph, liveOnly), entry, ef)|
    {
      hide LayerSearch.Expand, Explore, ClosedLinks, Tidy, Work, Better, Layer, DistinctIds;
      ghost var links, eligible := Layer(graph, level), Eligible(graph, liveOnly);
      var pending := [entry];
      stop, remaining := None, 0;
      best := if !liveOnly || !graph[entry].deleted then [entry] else [];
      var visited := new bool[|graph|](_ => false);
      visited[entry] := true;
      ghost var f := Start(view, eligible, entry);
      ghost var goal := Explore(view, links, eligible, ef, f);
      while pending != []
        invariant stop == None
        invariant context.Prompt(remaining)
        invariant context.now >= old(context.now) + |f.visited| - if f.pending == [] then 0 else 1
        invariant f.pending == pending && f.best == best && Tidy(view, ef, f)
        invariant Marks(visited, f.visited)
        invariant Explore(view, links, eligible, ef, f) == goal
        decreases Work(view, f)
      {
        stop, remaining := context.Checkpoint(remaining);
        if stop.Some? {
          return;
        }
        TidyFacts(view, ef, f);
        ExploreUnfolds(view, links, eligible, ef, f);
        var current := pending[0];
        if |best| >= ef && Better(view[best[|best| - 1]], view[current]) {
          break;
        }
        pending := pending[1..];
        f := Rest(view, ef, f);
        stop, pending, best, remaining, f :=
          Expand(view, ef, level, liveOnly, current, pending, best, visited, f, remaining, context);
        if stop.Some? {
          return;
        }
      }
      ExploreUnfolds(view, links, eligible, ef, f);
    }

    /** The `visited` array marks exactly the nodes of a set. */
    ghost predicate Marks(visited: array<bool>, s: set<nat>)
      reads this, visited
    {
      visited.Length == |graph| && forall n: nat :: n < |graph| ==> (visited[n] <==> n in s)
    }

    /** The inner loop of `search_layer`: offer every neighbour of `current`. */
    method Expand(view: View, ef: nat, level: nat, liveOnly: bool, current: nat,
                  pending0: seq<nat>, best0: seq<nat>, visited: array<bool>, ghost f0: Frontier,
                  first: nat, context: SearchContext)
      returns (stop: Option<StopReason>, pending: seq<nat>, best: seq<nat>, remaining: nat, ghost f: Frontier)
      requires DistinctIds(view) && |view| == |graph| && ef > 0
      requires current < |graph| && ClosedLinks(Layer(graph, level))
      requires f0.pending == pending0 && f0.best == best0 && Tidy(view, ef, f0) && Marks(visited, f0.visited)
      requires context.Prompt(first)
      modifies visited, context
      ensures context.Stands(stop, remaining) && context.now >= old(context.now)
      ensures stop == None ==>
        && f == LayerSearch.Expand(view, Eligible(graph, liveOnly), ef, f0, Layer(graph, level)[current])
        && f.pending == pending && f.best == best && Marks(visited, f.visited)
        && context.now == old(context.now) + |Neighbours(graph, current, level)|
        && |f.visited| <= |f0.visited| + |Neighbours(graph, current, level)|
    {
      ghost var eligible := Eligible(graph, liveOnly);
      var list := Neighbours(graph, current, level);
      assert list == Layer(graph, level)[current];
      stop, pending, best, remaining, f := None, pending0, best0, first, f0;
      for i := 0 to |list|
        invariant stop == None
        invariant context.Prompt(remaining) && context.now == old(context.now) + i
        invariant |f.visited| <= |f0.visited| + i
        invariant f.pending == pending && f.best == best && Tidy(view, ef, f)
        invariant Marks(visited, f.visited)
        invariant LayerSearch.Expand(view, eligible, ef, f, list[i..])
               == LayerSearch.Expand(view, eligible, ef, f0, list)
      {
        stop, remaining := context.Checkpoint(remaining);
        if stop.Some? {
          return;
        }
        var n := list[i];
        assert list[i..][0] == n && list[i..][1..] == list[i + 1..];
        pending, best := Visit(view, ef, liveOnly, n, pending, best, visited, f);
        f := Offer(view, eligible, ef, f, n);
      }
    }

    /** Its body: one neighbour, skipped when it was seen before. */
    method Visit(view: View, ef: nat, liveOnly: bool, n: nat, pending0: seq<nat>, best0: seq<nat>,
                 visited: array<bool>, ghost f: Frontier)
      returns (pending: seq<nat>, best: seq<nat>)
      requires DistinctIds(view) && |view| == |graph| && ef > 0 && n < |graph|
      requires f.pending == pending0 && f.best == best0 && Tidy(view, ef, f) && Marks(visited, f.visited)
      modifies visited
      ensures var r := Offer(view, Eligible(graph, liveOnly), ef, f, n);
              r.pending == pending && r.best == best && Marks(visited, r.visited)
    {
      hide Offer, Tidy, Insert, Admit, Ordered, InRange, Better, DistinctIds;
      OfferUnfolds(view, Eligible(graph, liveOnly), ef, f, n);
      pending, best := pending0, best0;
      if visited[n] {
        return;
      }
      visited[n] := true;
      pending, best := Enqueue(view, ef, !liveOnly || !graph[n].deleted, n, pending, best);
    }

    /** Queue a node seen for the first time, unless it ranks below a full answer. */
    method Enqueue(view: View, ef: nat, eligible: bool, n: nat, pending0: seq<nat>, best0: seq<nat>)
      returns (pending: seq<nat>, best: seq<nat>)
      requires DistinctIds(view) && InRange(view, pending0) && Ordered(view, best0) && ef > 0
      requires |best0| <= ef && n < |view| && n !in best0
      ensures var kept := |best0| < ef || Better(view[n], view[Worst(best0)]);
              && pending == (if kept then Insert(view, pending0, n) else pending0)
              && best == if kept && eligible then Admit(view, ef, best0, n) else best0
    {
      pending, best := pending0, best0;
      if |best| < ef || Better(view[n], view[best[|best| - 1]]) {
        pending := Insert(view, pending, n);
        if eligible {
          best := PushBounded(view, ef, best, n);
        }
      }
    }

    method PushBounded(view: View, ef: nat, queue: seq<nat>, n: nat) returns (best: seq<nat>)
      requires DistinctIds(view) && Ordered(view, queue) && |queue| <= ef && n < |view| && n !in queue
      ensures best == Admit(view, ef, queue, n)
    {
      best := Insert(view, queue, n);
      if |best| > ef {
        best := best[..|best| - 1];
      }
    }

    method Descend(query: Vector, start: nat, from: nat, to: nat, context: SearchContext)
      returns (stop: Option<StopReason>, entry: nat)
      requires |ids| == |vectors| == |graph| && Distinct(ids) && GraphOk(config, graph) && OnLayer(graph, start, from)
      requires context.Prompt(0)
      modifies context
      ensures context.Stands(stop, 0) && context.now >= old(context.now)
      ensures stop == None ==>
        entry == HnswState.Descend(config, ViewOf(platform, ids, vectors, query), graph, start, from, to)
    {
      hide Greedy;
      ghost var view := ViewOf(platform, ids, vectors, query);
      stop, entry := None, start;
      var current: nat := from;
      while current > to
        invariant stop == None
        invariant context.Prompt(0) && context.now >= old(context.now)
        invariant OnLayer(graph, entry, current)
        invariant HnswState.Descend(config, view, graph, entry, current, to)
               == HnswState.Descend(config, view, graph, start, from, to)
      {
        GreedyOnLayer(config, view, graph, entry, current);
        stop, entry := GreedySearchLayer(query, entry, current, context);
        if stop.Some? {
          return;
        }
        current := current - 1;
      }
    }

    /** Insertion searches with a default context, which is never interrupted. */
    method ConstructionEntry(query: Vector, start: nat, from: nat, to: nat) returns (entry: nat)
      requires |ids| == |vectors| == |graph| && Distinct(ids) && GraphOk(config, graph) && OnLayer(graph, start, from)
      ensures entry == HnswState.Descend(config, ViewOf(platform, ids, vectors, query), graph, start, from, to)
    {
      hide GraphOk;
      var context := new SearchContext.Unlimited();
      var stop;
      stop, entry := Descend(query, start, from, to, context);
    }

    method ConstructionCandidates(query: Vector, entry: nat, layer: nat) returns (candidates: seq<nat>)
      requires ValidConfig(config) && Coherent(CurrentContext(), graph)
      requires GraphOk(config, graph) && OnLayer(graph, entry, layer)
      ensures candidates == Candidates(config, ViewOf(platform, ids, vectors, query), graph, entry, layer)
    {
      LayerIsClosed(config, graph, layer);
      var context := new SearchContext.Unlimited();
      var stop;
      stop, candidates := SearchLayer(query, entry, config.efConstruction, layer, false, context);
    }

    /** The links of one layer and the entry for the layer below. */
    method PlanLayer(query: Vector, view: View, entry: nat, layer: nat) returns (chosen: seq<nat>, next: nat)
      requires ValidConfig(config) && Coherent(CurrentContext(), graph)
      requires GraphOk(config, graph) && OnLayer(graph, entry, layer)
      requires view == ViewOf(platform, ids, vectors, query)
      ensures OnLayer(graph, next, layer)
      ensures Plan(CurrentContext(), view, graph, entry, layer)
           == (if layer == 0 then [] else Plan(CurrentContext(), view, graph, next, layer - 1)) + [chosen]
    {
      var candidates := ConstructionCandidates(query, entry, layer);
      chosen := SelectNeighbors(view, candidates, MaximumConnections(config, layer));
      next := candidates[0];
    }

    /** The lists a new node will start with, from the first connected layer down to layer 0. */
    method ConnectionPlan(query: Vector, start: nat, first: nat, alloc: Allocator)
      returns (ok: bool, plan: seq<seq<nat>>)
      requires ValidConfig(config) && Coherent(CurrentContext(), graph)
      requires GraphOk(config, graph) && OnLayer(graph, start, first)
      modifies alloc
      ensures ok ==> plan == Plan(CurrentContext(), ViewOf(platform, ids, vectors, query), graph, start, first)
      ensures old(alloc.NeverFails()) ==> ok && alloc.NeverFails()
    {
      hide Plan, GraphOk;
      var view := ViewOf(platform, ids, vectors, query);
      ghost var x := CurrentContext();
      plan := [];
      PlanJoinEmpty(Plan(x, view, graph, start, first));
      var entry: nat, layers: nat := start, first + 1;
      while layers > 0
        invariant layers <= first + 1
        invariant layers > 0 ==> OnLayer(graph, entry, layers - 1)
        invariant layers > 0 ==> Plan(x, view, graph, entry, layers - 1) + plan == Plan(x, view, graph, start, first)
        invariant layers == 0 ==> plan == Plan(x, view, graph, start, first)
        invariant old(alloc.NeverFails()) ==> alloc.NeverFails()
      {
        var layer := layers - 1;
        ok := alloc.Allocate();
        if !ok { return; }
        ghost var rest := plan;
        var chosen, next := PlanLayer(query, view, entry, layer);
        plan := [chosen] + plan;
        PlanJoin(if layer == 0 then [] else Plan(x, view, graph, next, layer - 1), chosen, rest);
        entry := next;
        layers := layer;
      }
      ok := true;
    }

    // ---------- Neighbour selection and pruning ----------

    method SelectNeighbors(view: View, candidates: seq<nat>, maximumCount: nat) returns (selected: seq<nat>)
      requires |view| == |vectors| && InRange(view, candidates)
      ensures selected == Select(platform, config.selection, vectors, view, candidates, maximumCount)
    {
      var count := Least(maximumCount, |candidates|);
      selected := [];
      if config.selection == Simple {
        for i := 0 to count
          invariant selected == candidates[..i]
        {
          selected := selected + [candidates[i]];
        }
        return;
      }
      var pruned := [];
      for i := 0 to |candidates|
        invariant InRange(view, selected) && InRange(view, pruned) && |selected| <= count
        invariant Divide(platform, vectors, view, candidates[i..], count, Split(selected, pruned))
               == DivideAll(platform, vectors, view, candidates, count)
      {
        var c := candidates[i];
        assert candidates[i..][0] == c && candidates[i..][1..] == candidates[i + 1..];
        var diverse := DiverseFrom(view, selected, c);
        if diverse && |selected| < count {
          selected := selected + [c];
        } else {
          pruned := pruned + [c];
        }
      }
      ghost var split := DivideAll(platform, vectors, view, candidates, count);
      for i := 0 to |pruned|
        invariant i <= count - |split.selected|
        invariant selected == split.selected + pruned[..i]
      {
        if |selected| == count {
          break;
        }
        selected := selected + [pruned[i]];
      }
    }

    method DiverseFrom(view: View, selected: seq<nat>, c: nat) returns (diverse: bool)
      requires |view| == |vectors| && InRange(view, selected) && c < |view|
      ensures diverse == IsDiverse(platform, vectors, view, selected, c)
    {
      diverse := true;
      for i := 0 to |selected|
        invariant IsDiverse(platform, vectors, view, selected[..i], c)
      {
        if Between(platform, vectors, c, selected[i]) >= view[c].score {
          diverse := false;
          return;
        }
      }
      assert selected[..|selected|] == selected;
    }

    /** Replace a list that is safe to write. */
    method WriteList(node: nat, level: nat, list: seq<nat>, ghost tx: InsertionTransaction)
      requires tx.index == this && tx.Sound() && OnLayer(graph, node, level) && tx.Safe(node, level)
      modifies this`graph
      ensures graph == SetNeighbours(old(graph), node, level, list) && tx.Sound()
    {
      WriteKeepsCover(tx.before.graph, graph, tx.backups, node, level, list);
      graph := SetNeighbours(graph, node, level, list);
    }

    /** Bring a list back within its limit; a failed allocation may stop this half-way. */
    method PruneNeighbors(node: nat, level: nat, tx: InsertionTransaction, alloc: Allocator) returns (ok: bool)
      requires tx.index == this && tx.Sound()
      requires Coherent(CurrentContext(), graph) && OnLayer(graph, node, level) && ListPresent(graph, level, node)
      requires tx.Safe(node, level)
      modifies this`graph, tx`backups, alloc
      ensures tx.Sound()
      ensures SameShape(old(graph), graph)
      ensures ok ==> graph == Prune(CurrentContext(), old(graph), node, level)
      ensures old(alloc.NeverFails()) ==> ok && alloc.NeverFails()
    {
      hide InProgress, Survivors, DropReverse;
      var neighbors := graph[node].levels[level];
      if |neighbors| <= MaximumConnections(config, level) {
        return true;
      }
      ok := alloc.Allocate();
      if !ok { return; }
      var selected := ChooseSurvivors(node, level);
      ok := DropReverseLinks(node, level, neighbors, selected, tx, alloc);
      if !ok { return; }
      ok := alloc.Allocate();
      if !ok { return; }
      WriteList(node, level, selected, tx);
    }

    /** Rank a node's neighbours from its own point of view and select among them. */
    method ChooseSurvivors(node: nat, level: nat) returns (selected: seq<nat>)
      requires Coherent(CurrentContext(), graph) && OnLayer(graph, node, level) && ListPresent(graph, level, node)
      ensures selected == Survivors(CurrentContext(), graph, node, level)
    {
      var view := ViewOf(platform, ids, vectors, vectors[node]);
      var candidates := Sort(view, graph[node].levels[level]);
      selected := SelectNeighbors(view, candidates, MaximumConnections(config, level));
    }

    method DropReverseLinks(node: nat, level: nat, neighbors: seq<nat>, selected: seq<nat>,
                            tx: InsertionTransaction, alloc: Allocator) returns (ok: bool)
      requires tx.index == this && tx.Sound()
      requires AllOnLayer(graph, level, neighbors) && tx.Safe(node, level)
      modifies this`graph, tx`backups, alloc
      ensures tx.Sound() && tx.Safe(node, level)
      ensures SameShape(old(graph), graph) && (old(OnLayer(graph, node, level)) ==> OnLayer(graph, node, level))
      ensures ok ==> graph == DropReverse(old(graph), level, node, neighbors, selected)
      ensures old(alloc.NeverFails()) ==> ok && alloc.NeverFails()
    {
      for i := 0 to |neighbors|
        invariant tx.Sound() && tx.Safe(node, level)
        invariant SameShape(old(graph), graph) && AllOnLayer(graph, level, neighbors)
        invariant DropReverse(graph, level, node, neighbors[i..], selected)
               == DropReverse(old(graph), level, node, neighbors, selected)
        invariant old(alloc.NeverFails()) ==> alloc.NeverFails()
      {
        assert neighbors[i..][0] == neighbors[i] && neighbors[i..][1..] == neighbors[i + 1..];
        ok := DropReverseLink(node, level, neighbors[i], selected, tx, alloc);
        if !ok { return; }
      }
      ok := true;
    }

    // ---------- Insertion ----------

    method AppendNode(id: VectorId, v: Vector, lists: seq<seq<nat>>, tx: InsertionTransaction, alloc: Allocator)
      returns (r: Outcome)
      requires tx.index == this && tx.Sound() && tx.Untouched()
      modifies this`vectors, this`ids, this`graph, this`idToNode, tx`insertedId, alloc
      ensures tx.Sound()
      ensures r == Done ==>
        && id !in old(idToNode)
        && Logical() == old(Logical()).(vectors := old(vectors) + [v], ids := old(ids) + [id],
                                        graph := old(graph) + [Node(lists, false)],
                                        idToNode := old(idToNode)[id := |old(ids)|])
      ensures r == Done || r == OutOfMemory || (r == DuplicateId && id in old(idToNode))
      ensures old(alloc.NeverFails()) ==> alloc.NeverFails() && r == if id in old(idToNode) then DuplicateId else Done
    {
      r := OutOfMemory;
      var newNode := |ids|;
      var ok := alloc.Allocate();
      if !ok { return; }
      vectors := vectors + [v];
      ok := alloc.Allocate();
      if !ok { return; }
      ids := ids + [id];
      ok := alloc.Allocate();
      if !ok { return; }
      graph := graph + [Node(lists, false)];
      r := tx.InsertId(id, newNode, alloc);
    }

    /** Give `m` its link back to the new node, then prune `m`. */
    method LinkBack(n: nat, c: nat, m: nat, tx: InsertionTransaction, alloc: Allocator) returns (ok: bool)
      requires tx.index == this && tx.Sound()
      requires Coherent(CurrentContext(), graph) && OnLayer(graph, m, c)
      requires ListPresent(AddReverse(graph, n, c, m), c, m)
      modifies this`graph, tx`backups, alloc
      ensures tx.Sound() && SameShape(old(graph), graph)
      ensures ok ==> graph == Prune(CurrentContext(), AddReverse(old(graph), n, c, m), m, c)
      ensures old(alloc.NeverFails()) ==> ok && alloc.NeverFails()
    {
      ok := tx.Remember(m, c, alloc);
      if !ok { return; }
      ok := alloc.Allocate();
      if !ok { return; }
      WriteList(m, c, Neighbours(graph, m, c) + [n], tx);
      ok := PruneNeighbors(m, c, tx, alloc);
    }

    /** One layer of the linking loop. */
    method LinkLayer(n: nat, c: nat, tx: InsertionTransaction, alloc: Allocator) returns (ok: bool)
      requires tx.index == this && tx.Sound()
      requires Coherent(CurrentContext(), graph) && Linking(config, graph, n, c, Neighbours(graph, n, c))
      modifies this`graph, tx`backups, alloc
      ensures tx.Sound()
      ensures ok ==> graph == Link(CurrentContext(), old(graph), n, c, Neighbours(old(graph), n, c))
      ensures old(alloc.NeverFails()) ==> ok && alloc.NeverFails()
    {
      hide Link, Linking, Prune, AddReverse, InProgress;
      ghost var x := CurrentContext();
      ok := alloc.Allocate();
      if !ok { return; }
      var neighbors := Neighbours(graph, n, c);
      assert neighbors[0..] == neighbors;
      for i := 0 to |neighbors|
        invariant tx.Sound() && Coherent(x, graph) && Linking(config, graph, n, c, neighbors[i..])
        invariant Link(x, graph, n, c, neighbors[i..]) == Link(x, old(graph), n, c, neighbors)
        invariant old(alloc.NeverFails()) ==> alloc.NeverFails()
      {
        assert neighbors[i..][0] == neighbors[i] && neighbors[i..][1..] == neighbors[i + 1..];
        LinkUnfolds(x, graph, n, c, neighbors[i..]);
        ok := LinkBack(n, c, neighbors[i], tx, alloc);
        if !ok { return; }
      }
      LinkUnfolds(x, graph, n, c, []);
      ok := true;
    }

    method LinkAll(n: nat, top: nat, tx: InsertionTransaction, alloc: Allocator) returns (ok: bool)
      requires tx.index == this && tx.Sound()
      requires Coherent(CurrentContext(), graph) && Ready(config, graph, n, 0, top)
      modifies this`graph, tx`backups, alloc
      ensures tx.Sound()
      ensures ok ==> graph == LinkLayers(CurrentContext(), old(graph), n, 0, top)
      ensures old(alloc.NeverFails()) ==> ok && alloc.NeverFails()
    {
      hide LinkLayers, Link, Linking, InProgress;
      ghost var x := CurrentContext();
      for c := 0 to top + 1
        invariant tx.Sound() && Coherent(x, graph) && Ready(config, graph, n, c, top)
        invariant LinkLayers(x, graph, n, c, top) == LinkLayers(x, old(graph), n, 0, top)
        invariant old(alloc.NeverFails()) ==> alloc.NeverFails()
      {
        LinkLayerStep(x, graph, n, c, top);
        LinkLayersUnfold(x, graph, n, c, top);
        ok := LinkLayer(n, c, tx, alloc);
        if !ok { return; }
      }
      LinkLayersUnfold(x, graph, n, top + 1, top);
      ok := true;
    }

    /** Everything an insertion does between saving the state and committing. */
    method TryInsert(id: VectorId, v: Vector, tx: InsertionTransaction, alloc: Allocator) returns (r: Outcome)
      requires Valid() && |ids| < UINT32_MAX && VectorOk(config, platform, v)
      requires tx.index == this && tx.Sound() && tx.Untouched()
      modifies this, tx`backups, tx`insertedId, alloc
      ensures tx.Sound()
      ensures r == Done ==>
        && Insertable(config, platform, old(Logical()), id, v)
        && Logical() == Inserted(config, platform, old(Logical()), id, v)
      ensures r == Done || r == OutOfMemory || (r == DuplicateId && id in old(idToNode))
      ensures old(alloc.NeverFails()) ==> alloc.NeverFails() && r == if id in old(idToNode) then DuplicateId else Done
    {
      hide GraphOk, IdsOk, Tombstones, VectorOk;
      var level := NewLevel(platform, random);
      random := platform.advance(random);
      if graph == [] {
        r := AppendNode(id, v, NoLists(level + 1), tx, alloc);
        if r == Done {
          entryPoint, maxLevel := 0, level;
        }
      } else {
        r := InsertLater(id, v, level, tx, alloc);
      }
    }

    method InsertLater(id: VectorId, v: Vector, level: nat, tx: InsertionTransaction, alloc: Allocator)
      returns (r: Outcome)
      requires Valid() && |ids| < UINT32_MAX && VectorOk(config, platform, v) && graph != []
      requires tx.index == this && tx.Sound() && tx.Untouched()
      modifies this, tx`backups, tx`insertedId, alloc
      ensures tx.Sound()
      ensures r == Done ==>
        && Insertable(config, platform, old(Logical()), id, v)
        && Logical() == InsertedAt(config, platform, old(Logical()), id, v, level)
      ensures r == Done || r == OutOfMemory || (r == DuplicateId && id in old(idToNode))
      ensures old(alloc.NeverFails()) ==> alloc.NeverFails() && r == if id in old(idToNode) then DuplicateId else Done
    {
      hide HnswState.Valid, Ready, LinkLayers, NewLists, InProgress, VectorOk;
      ValidLengths(config, platform, Logical());
      ghost var s := Logical();
      var n, top := |ids|, Least(level, maxLevel);
      var ok, lists := PlanLists(v, level, alloc);
      if !ok { return OutOfMemory; }
      r := AppendNode(id, v, lists, tx, alloc);
      if r != Done { return; }
      ReadyToLink(config, platform, s, id, v, level);
      ok := LinkAll(n, top, tx, alloc);
      if !ok { return OutOfMemory; }
      if level > maxLevel {
        ScalarsAreFree(tx.before, Logical(), Logical().(entryPoint := n, maxLevel := level), tx.backups, tx.insertedId);
        entryPoint, maxLevel := n, level;
      }
    }

    method PlanLists(v: Vector, level: nat, alloc: Allocator) returns (ok: bool, lists: seq<seq<nat>>)
      requires Valid() && graph != []
      modifies alloc
      ensures ok ==> lists == NewLists(config, platform, Logical(), v, level)
      ensures old(alloc.NeverFails()) ==> ok && alloc.NeverFails()
    {
      hide LayerOk, Plan, HnswState.Descend;
      IdsAreDistinct(ids, idToNode);
      var entry := ConstructionEntry(v, entryPoint, maxLevel, level);
      var plan;
      ok, plan := ConnectionPlan(v, entry, Least(level, maxLevel), alloc);
      if ok {
        lists := plan + NoLists(level + 1 - |plan|);
      } else {
        lists := [];
      }
    }

    /** Insertion either happens completely or leaves the logical state as it was, whichever
        allocation fails. */
    method InsertNormalized(id: VectorId, v: Vector, alloc: Allocator) returns (r: Outcome)
      requires Valid() && |ids| < UINT32_MAX && VectorOk(config, platform, v)
      modifies this, alloc
      ensures Valid()
      ensures r == Done ==>
        && Insertable(config, platform, old(Logical()), id, v)
        && Logical() == Inserted(config, platform, old(Logical()), id, v)
      ensures r != Done ==> Logical() == old(Logical())
      ensures r == Done || r == OutOfMemory || r == DuplicateId
      ensures r == DuplicateId ==> id in old(idToNode)
      ensures old(alloc.NeverFails()) ==> alloc.NeverFails() && r == if id in old(idToNode) then DuplicateId else Done
    {
      hide Inserted, InProgress, HnswState.Valid, Insertable, VectorOk;
      ValidLengths(config, platform, Logical());
      var tx := new InsertionTransaction(this);
      r := TryInsert(id, v, tx, alloc);
      if r == Done {
        tx.Commit();
        InsertedIsValid(config, platform, old(Logical()), id, v);
      }
      tx.Destroy();
    }

    /** Errors are found in this order, and only then memory can run out. */
    method Add(id: VectorId, vector: Vector, alloc: Allocator) returns (r: Outcome)
      requires Valid() && LawfulPlatform(platform)
      modifies this, alloc
      ensures Valid()
      ensures r != Done ==> Logical() == old(Logical())
      ensures r == Done ==>
        && |vector| == config.dimension && platform.normalize(vector).Unit?
        && Insertable(config, platform, old(Logical()), id, platform.normalize(vector).vector)
        && Logical() == Inserted(config, platform, old(Logical()), id, platform.normalize(vector).vector)
      ensures r == InvalidDimension <==> |vector| != config.dimension
      ensures r == DuplicateId <==> |vector| == config.dimension && id in old(idToNode)
      ensures r == CapacityExceeded <==>
        |vector| == config.dimension && id !in old(idToNode) && |old(ids)| >= 0xFFFF_FFFF
      ensures r == InvalidVector <==>
        |vector| == config.dimension && id !in old(idToNode) && |old(ids)| < 0xFFFF_FFFF
        && platform.normalize(vector).Rejected?
      ensures old(alloc.NeverFails()) ==> alloc.NeverFails() && r != OutOfMemory
    {
      if |vector| != config.dimension {
        return InvalidDimension;
      }
      if id in idToNode {
        return DuplicateId;
      }
      if |ids| >= UINT32_MAX {
        return CapacityExceeded;
      }
      var normalized := platform.normalize(vector);
      if normalized.Rejected? {
        return InvalidVector;
      }
      r := InsertNormalized(id, normalized.vector, alloc);
    }

    method DropReverseLink(node: nat, level: nat, removed: nat, selected: seq<nat>,
                           tx: InsertionTransaction, alloc: Allocator) returns (ok: bool)
      requires tx.index == this && tx.Sound() && OnLayer(graph, removed, level)
      modifies this`graph, tx`backups, alloc
      ensures tx.Sound() && (old(tx.Safe(node, level)) ==> tx.Safe(node, level))
      ensures SameShape(old(graph), graph)
      ensures ok ==> graph == DropOne(old(graph), level, node, removed, selected)
      ensures old(alloc.NeverFails()) ==> ok && alloc.NeverFails()
    {
      if removed in selected {
        return true;
      }
      ok := tx.Remember(removed, level, alloc);
      if ok {
        WriteList(removed, level, Without(Neighbours(graph, removed, level), node), tx);
      }
    }

    // ---------- Deletion, rebuilding, queries ----------

    method Erase(id: VectorId) returns (removed: bool)
      requires Valid()
      modifies this`graph, this`deletedCount
      ensures Valid()
      ensures removed == old(IsLive(Logical(), id))
      ensures Logical() == Erased(old(Logical()), id)
    {
      ErasedIsValid(config, platform, Logical(), id);
      if id !in idToNode || graph[idToNode[id]].deleted {
        return false;
      }
      var n := idToNode[id];
      graph := graph[n := graph[n].(deleted := true)];
      deletedCount := deletedCount + 1;
      removed := true;
    }

    method LiveIdList() returns (result: seq<VectorId>)
      requires Valid()
      ensures result == LiveIds(Logical())
    {
      hide LayerOk;
      ghost var s := Logical();
      result := [];
      for node := 0 to |ids|
        invariant result == LiveIdsBelow(s, node)
      {
        if !graph[node].deleted {
          result := HnswOperations.InsertId(result, ids[node]);
        }
      }
    }

    /** A new index with the live vectors; null when memory runs out. This index is not modified. */
    method Rebuild(seed: nat, alloc: Allocator) returns (result: HnswIndex?)
      requires Valid() && seed <= UINT64_MAX
      modifies alloc
      ensures old(alloc.NeverFails()) ==> alloc.NeverFails() && result != null
      ensures result != null ==>
        && fresh(result) && result.Valid()
        && result.config == config.(randomSeed := seed) && result.platform == platform
        && result.Logical() == Rebuilt(config, platform, Logical(), seed)
    {
      hide Copied, CopyFrom, CopyNext, LiveIds, HnswState.Valid;
      ghost var s := Logical();
      ReadyToCopy(config, platform, s, seed);
      var all := LiveIdList();
      var copy := new HnswIndex(config.(randomSeed := seed), platform);
      for k := 0 to |all|
        invariant unchanged(this) && fresh(copy) && copy.Valid()
        invariant CanCopy(copy.config, platform, s, all) && Copied(copy.config, platform, s, all, k, copy.Logical())
        invariant CopyFrom(copy.config, platform, s, all, k, copy.Logical()) == Rebuilt(config, platform, s, seed)
        invariant old(alloc.NeverFails()) ==> alloc.NeverFails()
      {
        CopyFromUnfolds(copy.config, platform, s, all, k, copy.Logical());
        var ok := CopyOne(copy, all, k, alloc);
        if !ok {
          return null;
        }
      }
      CopyFromUnfolds(copy.config, platform, s, all, |all|, copy.Logical());
      result := copy;
    }

    method CopyOne(copy: HnswIndex, all: seq<VectorId>, k: nat, alloc: Allocator) returns (ok: bool)
      requires copy != this && copy.Valid() && copy.platform == platform
      requires CanCopy(copy.config, platform, Logical(), all) && k < |all|
      requires Copied(copy.config, platform, Logical(), all, k, copy.Logical())
      modifies copy, alloc
      ensures copy.Valid()
      ensures ok ==> copy.Logical() == CopyNext(copy.config, platform, Logical(), all, k, old(copy.Logical()))
      ensures old(alloc.NeverFails()) ==> ok && alloc.NeverFails()
    {
      NextIsInsertable(copy.config, platform, Logical(), all, k, copy.Logical());
      var r := copy.InsertNormalized(all[k], vectors[idToNode[all[k]]], alloc);
      ok := r == Done;
    }

    /** A query with a budget. It is answered exactly as specified, or it is interrupted for the reason that a
        check found; there is nothing in between, and the index is never changed. Between the first check and the
        last there is a call of the context for each node looked at on layer 0 and for each result. */
    method Search(query: Vector, k: nat, efSearch: nat, context: SearchContext)
      returns (stop: Option<StopReason>, r: SearchOutcome)
      requires Valid() && context.found == None
      modifies context
      ensures context.interval == 0 ==> stop == None && r == InvalidArgument && context.now == old(context.now)
      ensures context.interval > 0 ==> context.Ended(stop, old(context.now))
      ensures context.interval > 0 && stop == None ==> r == Answer(config, platform, Logical(), query, k, efSearch)
      ensures context.interval > 0 && stop == None ==>
        && (r == InvalidArgument <==>
              k > 0 && (|query| != config.dimension || efSearch == 0 || platform.normalize(query).Rejected?))
        && (r.Found? && (k == 0 || Size() == 0) ==> r.results == [])
      ensures stop == None && Queried(config, platform, Logical(), query, k, efSearch) && context.interval > 0 ==>
        && r.Found?
        && context.now >= old(context.now) + 3 + |r.results|
                          + |LookedAt(config, platform, Logical(), platform.normalize(query).vector, k, efSearch)|
      ensures context.NeverStops() ==> stop == None
    {
      hide LookedAt, Chosen;
      stop, r := None, InvalidArgument;
      if context.interval == 0 {
        return;
      }
      stop := context.Check();
      EndsInTime(context, stop, old(context.now));
      if stop.Some? {
        return;
      }
      if k == 0 {
        return None, Found([]);
      }
      if |query| != config.dimension || efSearch == 0 {
        return;
      }
      var normalized := platform.normalize(query);
      if normalized.Rejected? {
        return;
      }
      LiveCount(config, platform, Logical());
      if |ids| - deletedCount == 0 {
        return None, Found([]);
      }
      stop, r := AnswerQuery(normalized.vector, k, efSearch, context);
      EndsInTime(context, stop, old(context.now));
    }

    /** What is left to do once the arguments were accepted. */
    method AnswerQuery(q: Vector, k: nat, efSearch: nat, context: SearchContext)
      returns (stop: Option<StopReason>, r: SearchOutcome)
      requires Valid() && graph != [] && efSearch > 0 && context.Prompt(0)
      modifies context
      ensures context.now >= old(context.now) && context.now > 0 && stop == context.found == context.At(context.now - 1)
      ensures stop.Some? ==> context.Noticed()
      ensures r.Found?
      ensures stop == None ==>
        && r.results == Results(ViewOf(platform, ids, vectors, q), Chosen(config, platform, Logical(), q, k, efSearch))
        && context.now >= old(context.now) + 2 + |r.results|
                          + |LookedAt(config, platform, Logical(), q, k, efSearch)|
    {
      hide LookedAt, Chosen, HnswState.Valid;
      ValidLengths(config, platform, Logical());
      r := Found([]);
      var nodes;
      stop, nodes := SearchLive(q, k, efSearch, context);
      if stop.Some? {
        return;
      }
      var results;
      stop, results := CopyResults(ViewOf(platform, ids, vectors, q), nodes, context);
      r := Found(results);
    }

    /** The last loop of `search`, and the last check. */
    method CopyResults(view: View, nodes: seq<nat>, context: SearchContext)
      returns (stop: Option<StopReason>, results: seq<SearchResult>)
      requires InRange(view, nodes) && context.Prompt(0)
      modifies context
      ensures context.now >= old(context.now) && context.now > 0 && stop == context.found == context.At(context.now - 1)
      ensures stop.Some? ==> context.Noticed()
      ensures stop == None ==> results == Results(view, nodes) && context.now == old(context.now) + |nodes| + 1
    {
      results := [];
      var remaining := 0;
      for i := 0 to |nodes|
        invariant context.Prompt(remaining) && context.now == old(context.now) + i
        invariant |results| == i && forall j :: 0 <= j < i ==> results[j] == view[nodes[j]]
      {
        stop, remaining := context.Checkpoint(remaining);
        if stop.Some? {
          return;
        }
        results := results + [view[nodes[i]]];
      }
      stop := context.Check();
    }

    /** Descend to layer 0, search it for live nodes and keep as many as were asked for. */
    method SearchLive(q: Vector, k: nat, efSearch: nat, context: SearchContext)
      returns (stop: Option<StopReason>, nodes: seq<nat>)
      requires Valid() && graph != [] && efSearch > 0 && context.Prompt(0)
      modifies context
      ensures context.Stands(stop, 0) && context.now >= old(context.now)
      ensures stop == None ==>
        && nodes == Chosen(config, platform, Logical(), q, k, efSearch)
        && context.now >= old(context.now) + 1 + |LookedAt(config, platform, Logical(), q, k, efSearch)|
    {
      hide Greedy, Explore, Eligible, Visited, LayerSearch.Search;
      LiveCount(config, platform, Logical());
      IdsAreDistinct(ids, idToNode);
      LayerIsClosed(config, graph, 0);
      hide LayerOk;
      nodes := [];
      var entry;
      stop, entry := Descend(q, entryPoint, maxLevel, 0, context);
      if stop.Some? {
        return;
      }
      var count := Least(k, |ids| - deletedCount);
      stop, nodes := SearchLayer(q, entry, Most(count, efSearch), 0, true, context);
      if |nodes| > count {
        nodes := nodes[..count];
      }
    }
  }

  /** Undoes an insertion unless it was committed. */
  class InsertionTransaction {
    const index: HnswIndex
    const nodeCount: nat
    const vectorCount: nat
    const savedRandom: Rng
    const savedEntry: nat
    const savedLevel: nat
    var backups: seq<Backup>
    var insertedId: InsertedId
    var committed: bool
    ghost const before: State

    constructor (index: HnswIndex)
      requires |index.ids| == |index.graph|
      ensures this.index == index && before == index.Logical() && !committed
      ensures backups == [] && insertedId == NotInserted && Sound()
    {
      this.index := index;
      nodeCount, vectorCount := |index.ids|, |index.vectors|;
      savedRandom, savedEntry, savedLevel := index.random, index.entryPoint, index.maxLevel;
      backups, insertedId, committed := [], NotInserted, false;
      before := index.Logical();
    }

    /** What was saved is the state at entry, and the journal accounts for every change since. */
    ghost predicate Sound()
      reads this, index
    {
      && nodeCount == |before.ids| == |before.graph| && vectorCount == |before.vectors|
      && savedRandom == before.random && savedEntry == before.entryPoint && savedLevel == before.maxLevel
      && InProgress(before, index.Logical(), backups, insertedId)
    }

    /** The list may be written: it is in the journal or belongs to the new node. */
    ghost predicate Safe(node: nat, level: nat)
      reads this
    {
      node >= |before.graph| || Recorded(backups, node, level)
    }

    method IsRecorded(node: nat, level: nat) returns (found: bool)
      ensures found == Recorded(backups, node, level)
    {
      for i := 0 to |backups|
        invariant !Recorded(backups[..i], node, level)
      {
        if backups[i].node == node && backups[i].level == level {
          return true;
        }
        RecordedJoin(backups[..i], [backups[i]], node, level);
        assert backups[..i + 1] == backups[..i] + [backups[i]];
      }
      assert backups[..|backups|] == backups;
      found := false;
    }

    method Remember(node: nat, level: nat, alloc: Allocator) returns (ok: bool)
      requires Sound() && OnLayer(index.graph, node, level)
      modifies this`backups, alloc
      ensures Sound() && (ok ==> Safe(node, level))
      ensures forall n, c :: old(Safe(n, c)) ==> Safe(n, c)
      ensures old(alloc.NeverFails()) ==> ok && alloc.NeverFails()
    {
      if node >= nodeCount {
        return true;
      }
      var found := IsRecorded(node, level);
      if found {
        return true;
      }
      ok := alloc.Allocate();
      if ok {
        RecordKeepsCover(before.graph, index.graph, backups, node, level);
        forall n, c ensures Recorded(backups, n, c)
          ==> Recorded(backups + [Backup(node, level, Neighbours(index.graph, node, level))], n, c)
        {
          RecordedJoin(backups, [Backup(node, level, Neighbours(index.graph, node, level))], n, c);
        }
        backups := backups + [Backup(node, level, index.graph[node].levels[level])];
      }
    }

    /** Nothing has been written since the transaction began, except that the generator advanced. */
    ghost predicate Untouched()
      reads this, index
    {
      index.Logical() == before.(random := index.random) && backups == [] && insertedId == NotInserted
    }

    method InsertId(id: VectorId, node: nat, alloc: Allocator) returns (r: Outcome)
      requires Sound() && insertedId == NotInserted
      modifies this`insertedId, index`idToNode, alloc
      ensures Sound()
      ensures r == Done ==> id !in old(index.idToNode) && index.idToNode == old(index.idToNode)[id := node]
      ensures r == Done || r == OutOfMemory || (r == DuplicateId && id in old(index.idToNode))
      ensures old(alloc.NeverFails()) ==>
        alloc.NeverFails() && r == if id in old(index.idToNode) then DuplicateId else Done
    {
      var ok := alloc.Allocate();
      if !ok { return OutOfMemory; }
      if id in index.idToNode { return DuplicateId; }
      index.idToNode := index.idToNode[id := node];
      insertedId := InsertedId(id);
      r := Done;
    }

    method Commit()
      modifies this`committed
      ensures committed
    {
      committed := true;
    }

    method SwapBack()
      requires forall i :: 0 <= i < |backups| ==> OnLayer(index.graph, backups[i].node, backups[i].level)
      modifies index`graph
      ensures index.graph == PutBack(old(index.graph), backups)
    {
      for i := 0 to |backups|
        invariant SameShape(old(index.graph), index.graph)
        invariant forall j :: i <= j < |backups| ==> OnLayer(index.graph, backups[j].node, backups[j].level)
        invariant PutBack(index.graph, backups[i..]) == PutBack(old(index.graph), backups)
      {
        assert backups[i..][0] == backups[i] && backups[i..][1..] == backups[i + 1..];
        index.graph := SetNeighbours(index.graph, backups[i].node, backups[i].level, backups[i].neighbors);
      }
    }

    /** The destructor. It allocates nothing. */
    method Destroy()
      requires committed || Sound()
      modifies index
      ensures index.Logical() == if committed then old(index.Logical()) else before
    {
      if committed {
        return;
      }
      hide InProgress;
      RollbackRestores(before, index.Logical(), backups, insertedId);
      SwapBack();
      if insertedId.InsertedId? {
        index.idToNode := index.idToNode - {insertedId.id};
      }
      index.graph := index.graph[..nodeCount];
      index.ids := index.ids[..nodeCount];
      index.vectors := index.vectors[..vectorCount];
      index.random := savedRandom;
      index.entryPoint := savedEntry;
      index.maxLevel := savedLevel;
    }
  }

  lemma PlanJoin(lower: seq<seq<nat>>, chosen: seq<nat>, rest: seq<seq<nat>>)
    ensures lower + ([chosen] + rest) == (lower + [chosen]) + rest
  {
  }

  lemma PlanJoinEmpty(plan: seq<seq<nat>>)
    ensures plan + [] == plan
  {
  }
}
