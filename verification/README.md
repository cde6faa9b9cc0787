# Verified model of the vector indexes, snapshot formats and serving protocols

This project models the parts of the repository where a mistake would be silent: the HNSW graph index and
its insertion rollback, the exact flat index, both snapshot formats with their checksums, snapshot
publication with its generation fence, and the bounded search executor. It proves what these parts promise,
for every input, every run and every interleaving of the modelled steps. `dafny verify dfyconfig.toml`
checks everything.

## What is modelled, and how

**Indexes.** `HnswIndex`, its `InsertionTransaction` and `FlatIndex` are classes whose fields are updated in
place, with the loops of the source. Each method is proved to compute a function on values
(`LayerSearch.Search`, `GraphLinks.Prune`, `HnswState.Inserted`, ...), and the theorems are about those
functions. For one query every node has one search result (its ID and its similarity), so a query fixes a
*view*, and queues hold nodes ordered by the view. An `Allocator` object answers each allocation request from
a schedule, so a failure at any allocation is some schedule; a `SearchContext` object has a clock that goes on
with every call, and an arbitrary function says what a check would see at each time. The central results:

- `search_layer` is exact about what it can promise: it returns exactly min(ef, number of reachable eligible
  nodes) nodes, the best of all that it visited, despite its early break and despite tombstones on the way, and it
  never leaves a group of ef nodes that ranks above all its neighbours;
- a new node is linked as planned: the way down and the walks on it are the only ones of their kind, each list is
  taken from a search that starts at the best node found above, and pruning keeps the only diverse choice there is;
- the invariant (`Valid`: duplicate-free lists within degree limits, neighbours present on their layer, entry
  point on top, ID map inverse, exact tombstone count) holds of every accepted file, is all that any operation
  needs, and survives every sequence of add, erase and rebuild;
- a query with a budget is answered exactly as specified or interrupted for what one of its checks found, at
  whichever of them: there is no partial answer, and no stop goes unnoticed for longer than one interval;
- symmetry of links (`Mutual`) is kept by every operation that finds it, although linking is asymmetric midway
  and pruning may unlink the node that is being inserted; a rebuild establishes it whatever it starts from;
- before pruning can start, up to M + 1 nodes above layer 0 and 2M + 1 on it, every layer of a grown index is
  connected, so that queries reach every live node; of every size above 2M + 1 there is one that does not, and what layer 0 once keeps apart stays
  apart until a rebuild;
- insertion is atomic at every failure point, because the journal holds each changed list of an old node
  exactly once with its original contents;
- the approximate index answers exactly like the flat index when all live nodes are reachable on layer 0 and
  the beam is wide enough; for requests that ask for everything, reachability is also necessary.

**Snapshot formats.** All three versions of the HNSW format are read and version 3 is written. A printer and a
validating parser are functions on byte sequences, proved sound (what is accepted is exactly an encoding) and
complete (every encoding is accepted); `SnapshotLayout` gives the place of every field. The serializers are loops over a
`Sink` and a `Reader` with a running checksum, proved equal to those functions, including 64-bit checked
arithmetic. FNV-1a is modelled with wrap-around modulo 2^64.

**Protocols.** `SnapshotPublication` with `VectorStore`, and `SearchExecutor`, are classes whose methods are
the mutex sections of the source. Each section equals a step function, and the step functions are the actions
of a system that interleaves callers, loaders and workers arbitrarily.

**Uses.** `RebuildTool` follows the offline rebuild from file to file: any accepted file, one-way links included,
becomes an index that passes the tool's own comparison.

## What the proofs found

- `HnswIndex`: a saved index does not always load again. The loader bounds the payload by the worst case (all
  nodes on 64 levels with full lists), computed in 64 bits, and rejects the file when that bound overflows;
  `save` does not check it. `HnswSnapshot.SaveThenLoad` gives the exact condition,
  `SnapshotLimits.SavedButNotLoadable` a family of indexes that additions alone produce, and
  `SnapshotLimits.PlainIndexIsLost` one of them in full.
- `HnswIndex`: the loader does not check that links are symmetric. `SnapshotLimits.OneWayIsAccepted` is a file
  with a one-way link that it accepts. Nothing else is lost: `SnapshotLimits.LoadedIsIntactIff` says that symmetry
  is all that can be missing, and `SnapshotLimits.RunFromFile` that such an index can be used like any other and
  is repaired by a rebuild.
- `HnswIndex`: pruning can disconnect layer 0. `TightBound.ReachedExactlyUpToLimit` says when: grown indexes are sure
  to reach everything exactly up to 2M + 1 nodes, whatever the levels drawn, the strategy and efConstruction.
  `TightBound.OneMoreIsCutOff` grows, for every M, an index of 2M + 2 vectors that answers every query with the same
  one; `TightBound.SixVectors` is the case M = 2. `Separation.LostStaysLost` shows that no later addition mends
  this, and `HnswOperations.FullAnswerIffReachable` says for a given index exactly when an answer suffers.
- HNSW format, version 1: whatever follows the nodes is neither read nor covered by the checksum, although the
  header's payload size may include it. `HnswVersions.OneUnreadByte` gives two such files that load alike, and
  `HnswVersions.OneByteIsNoticed` shows that versions 2 and 3 notice every substitution but one kind.
- `VectorStore`: the next version is computed in 64 bits, so after the last one a hand-made snapshot of version 0 is
  activated (`VectorStoreModel.VersionFalls`); prepared snapshots never get there.
- Flat format: the checksum covers only the payload, so the dimension field of an empty index is unprotected.
  `FlatFile.SubstitutionIsRejectedUnlessEmpty` shows that this is the only substitution that can go unnoticed.

## Files

| file | content |
|---|---|
| Ranking, Reachability, Config, Wrappers, Numbers | ranking of results, walks on a layer, configuration and platform, options, minimum and maximum |
| LayerSearch, SearchStops, GreedyDescent, NeighborSelection, GraphLinks | the four graph algorithms as functions, with their theorems |
| HnswState, InsertionJournal, HnswOperations, HnswIndex | invariant and insertion, rollback, erase/rebuild/query, the index class |
| EntryPath, InsertionPlan, Rebuilding | the way down, where a new node gets its links, what a rebuilt index depends on |
| MutualLinks | symmetric links: kept by growing, restored by rebuilding |
| FlatIndex, Equivalence | the exact index, and both indexes as one abstract value |
| Connectivity, Separation, Isolation, TightBound | small layers are connected, what is apart stays apart, and the bound for layer 0 is exact |
| Bytes, Checksum, CheckedArithmetic, Encoding, Streams, StoredRows | what both formats share |
| HnswFormat, HnswFile, HnswSnapshot, HnswVersions, HnswSaving, HnswLoading | the HNSW format in its three versions and its serializer |
| SnapshotLayout, SnapshotLimits, RebuildTool | files byte by byte, loaded indexes in use, where the format's promises end, the offline rebuild |
| FlatFile, FlatIndexIO | the flat format and its serializer |
| VectorStore, PublicationSteps, SnapshotPublication, PublicationRuns | publication: store, steps, class, all runs |
| SearchContext, ExecutorSteps, SearchExecutor, ExecutorRuns, ExecutorReasons, ExecutorProgress, ExecutorEffects | budgets and cancellation; executor: steps, class, all runs, reasons, progress, effects |

## Model

| member | source | states |
|---|---|---|
| Ranking.OrderedUnique | src/hnsw_index.cpp:317-322 | A set of nodes has only one ranking by score descending, then ID ascending. |
| Ranking.TopKUnique | src/flat_index.cpp:14-19 | The list of the best k of a set of search results is unique. |
| Configuration.ViewOf | src/hnsw_index.cpp:324-327 | For one query every node has the search result made of its ID and its similarity; distinct IDs give distinct results. |
| LayerSearch.SearchCount | src/hnsw_index.cpp:349-409 | The answer consists of eligible nodes that the entry reaches on the layer, and has exactly min(ef, number of such nodes) of them: tombstones on the way and the early break never shorten it. |
| LayerSearch.SearchIsBestOfVisited | src/hnsw_index.cpp:371-398 | The answer is the best ef of all eligible visited nodes, and every neighbour of an answered node was visited. |
| LayerSearch.SearchLocallyOptimal | src/hnsw_index.cpp:371-398 | An eligible neighbour of an answered node is itself answered or ranks below every node of a full answer. |
| LayerSearch.SearchExhaustive | src/hnsw_index.cpp:349-409 | With room for every reachable eligible node, the answer is all of them. |
| SearchStops.SearchStaysInside | src/hnsw_index.cpp:371-398 | Where the search stops: a group of exactly ef eligible nodes around the entry that ranks above all its neighbours is exactly the answer, however good the nodes further away are. |
| SearchStops.AnswerIsFromGroup | src/hnsw_index.cpp:264-286 | A query whose beam such a group of live nodes fills is answered by the best k of the group. |
| Hnsw.HnswIndex.SearchLayer | src/hnsw_index.cpp:349-409 | The search over two queues and a visited array returns the answer of the specification, for any entry, layer, width and eligibility, unless a check interrupts it; it calls the context once at the start, at least once for each node looked at and once for each result, and takes notice of a stop within one interval. |
| Hnsw.HnswIndex.ExploreLayer | src/hnsw_index.cpp:360-398 | The main loop leaves exactly the specified result queue, and calls the context at least once for each node it looks at. |
| Hnsw.HnswIndex.Expand | src/hnsw_index.cpp:379-397 | Offering all neighbours of a node changes both queues and the visited array as specified, with one call of the context for each of them. |
| Hnsw.HnswIndex.Visit | src/hnsw_index.cpp:381-396 | One neighbour is skipped, queued for expansion, or queued for both expansion and the answer. |
| Hnsw.HnswIndex.Enqueue | src/hnsw_index.cpp:385-396 | A new node is queued unless it ranks below a full answer, and enters the answer only if eligible, which then drops its worst entry if too long. |
| Ranking.PopAll | src/hnsw_index.cpp:400-408 | Emptying a queue, worst first, and sorting what came out gives the ranking of its content, with one call of the context for each entry; both indexes end a search with it. |
| GreedyDescent.Scan | src/hnsw_index.cpp:337-344 | After one pass over a list the running best is the start or a list member, no worse than the start, and not beaten by any member, although it may be replaced during the pass. |
| GreedyDescent.GreedyIsLocalOptimum | src/hnsw_index.cpp:329-347 | The greedy walk ends at a node it can reach, no worse than the entry and not beaten by any of its neighbours. |
| GreedyDescent.AboveShrinks | src/hnsw_index.cpp:335-345 | Every improvement leaves fewer nodes that rank above the current best, so the walk terminates. |
| GreedyDescent.GreedyIsSteepest | src/hnsw_index.cpp:329-347 | The greedy walk goes to the best neighbour each time, until none ranks higher. |
| GreedyDescent.SteepestUnique | src/hnsw_index.cpp:329-347 | From every node there is only one such walk, so where it ends is determined. |
| Hnsw.HnswIndex.GreedySearchLayer | src/hnsw_index.cpp:329-347 | The loop returns the end of the greedy walk; every neighbour it reads is preceded by a call of the context. |
| Hnsw.HnswIndex.Descend | src/hnsw_index.cpp:155-158 | Walking down from the top layer ends at the specified node, which EntryPath.DescendLeadsDown describes. |
| EntryPath.DescendLeadsDown | src/hnsw_index.cpp:155-158 | The descent takes a greedy walk on every layer from the highest down to the one above its target: each walk starts where the one above ended and ends at a node that it can reach, that is its start or ranks above it, and that no neighbour on the layer beats. |
| EntryPath.OneWayDown | src/hnsw_index.cpp:155-158 | There is only one such way down. |
| EntryPath.BaseEntryIsLedTo | src/hnsw_index.cpp:264-267 | A query enters layer 0 at the end of the way down from the entry point, and of no other way. |
| NeighborSelection.SelectIsSubset | src/hnsw_index.cpp:411-453 | Both strategies return exactly min(maximum, number of candidates) distinct candidates. |
| NeighborSelection.SimpleTakesBest | src/hnsw_index.cpp:417-422 | The simple strategy leaves out no candidate that ranks above one it takes. |
| NeighborSelection.HeuristicIsDiverse | src/hnsw_index.cpp:424-452 | Said of the result alone: it begins with picks of which each is less similar to every earlier one than to the query; every other candidate is too close to a better pick or found all places taken by better ones; the best of these fill the places that are left. |
| NeighborSelection.OneDiverseChoice | src/hnsw_index.cpp:424-452 | Candidates and number of places determine such a result completely. |
| Hnsw.HnswIndex.SelectNeighbors | src/hnsw_index.cpp:411-453 | The three loops return the specified selection. |
| GraphLinks.PruneEdges | src/hnsw_index.cpp:460-488 | Pruning keeps exactly min(limit, degree) links of the owner, and removes a link between two nodes exactly when the owner gave it up, in both directions; no link appears. |
| GraphLinks.PruneKeepsLists | src/hnsw_index.cpp:460-488 | Pruning leaves every well-formed list well formed and no longer than before. |
| GraphLinks.PruneFollowsStrategy | src/hnsw_index.cpp:460-488 | Which links pruning keeps, in the ranking of the owner: under the simple strategy it drops none that ranks above one it keeps, under the heuristic it keeps a diverse choice of the old neighbours; a list within its limit stays as it is. |
| GraphLinks.LinkStep | src/hnsw_index.cpp:179-183 | Linking a neighbour back and pruning its list keeps all lists well formed and within limits, and leaves the remaining planned links without a reverse link, even when pruning unlinks the new node again. |
| GraphLinks.Link | src/hnsw_index.cpp:178-183 | After all planned neighbours were linked back every list of the layer is well formed and within its limit, and no other layer has changed. |
| GraphLinks.LinkGoesInOrder | src/hnsw_index.cpp:177-184 | The planned neighbours get their links back one after the other, in list order, and each list is pruned before the next neighbour is linked. |
| GraphLinks.LinkAddsNoOldEdge | src/hnsw_index.cpp:177-184 | Linking a new node never creates a link to an old one, neither from another old node nor from the new one. |
| Hnsw.HnswIndex.PruneNeighbors | src/hnsw_index.cpp:460-488 | In-place pruning has the specified effect, which GraphLinks.PruneFollowsStrategy describes; it records every list of an old node before changing it, and may stop at any allocation. |
| Hnsw.HnswIndex.DropReverseLinks | src/hnsw_index.cpp:479-486 | Removing the reverse links of unselected neighbours has the specified effect on the graph. |
| Hnsw.HnswIndex.LinkLayer | src/hnsw_index.cpp:178-183 | The linking loop of one layer has the specified effect, or stops with the journal intact. |
| Hnsw.HnswIndex.LinkAll | src/hnsw_index.cpp:177-184 | Linking all shared layers has the specified effect, or stops with the journal intact. |
| HnswState.NewLevel | src/hnsw_index.cpp:307-315 | A drawn level is at most 63. |
| HnswState.Candidates | src/hnsw_index.cpp:163-164 | Construction candidates are ranked, not empty, and present on the layer. |
| HnswState.NewLists | src/hnsw_index.cpp:155-170 | A new node gets one list per layer of its level; layers above the old top are empty. |
| InsertionPlan.PlanFollowsSearches | src/hnsw_index.cpp:160-170 | Each list of a plan is what the configured strategy takes from a search of its layer for efConstruction nodes; the search starts at the best node found on the layer above. |
| InsertionPlan.InsertionFollowsSearches | src/hnsw_index.cpp:155-170 | Where the lists of a new node come from: the way down from the entry point to its level, then a search of every shared layer from the best node found above, from which the configured strategy selects; above the old top the lists are empty. |
| InsertionPlan.TakenCount | src/hnsw_index.cpp:163-166 | Such a list holds distinct nodes that the search reaches, exactly min(limit, efConstruction, nodes reached) of them. |
| InsertionPlan.LinkIsLocal | src/hnsw_index.cpp:178-183 | What linking does to a layer depends on nothing but that layer. |
| InsertionPlan.InsertedLayer | src/hnsw_index.cpp:172-184 | On every shared layer insertion does exactly what appending the new node with its planned list and linking that layer alone does; the layers above only gain the new node. |
| InsertionPlan.InsertedShape | src/hnsw_index.cpp:136-191 | The new node is live and on the layers up to the level drawn for it, capped at 63; levels and tombstones of the others stay; the entry point moves exactly when the new node has more layers than any other. |
| HnswState.LinkedGraph | src/hnsw_index.cpp:172-184 | Once linked, every layer satisfies the layer invariant, with the same nodes, levels and tombstones as the appended graph. |
| HnswState.InsertedFields | src/hnsw_index.cpp:172-189 | Insertion appends one ID and one vector, maps the ID to the new node, advances the generator and keeps the tombstone count. |
| HnswState.InsertedAddsNoOldEdge | src/hnsw_index.cpp:136-191 | Insertion creates no link between two old nodes; it can only remove such links. |
| HnswState.InsertedIsValid | src/hnsw_index.cpp:136-191 | Insertion keeps the invariant, of loaded indexes too: distinct neighbours, no self-loops, neighbours present on the layer, degree limits, entry point on the top level, ID map inverse to the ID array, exact tombstone count. |
| HnswState.EmptyIsValid | src/hnsw_index.cpp:116-119 | A new index satisfies the invariant. |
| InsertionJournal.RecordKeepsCover | src/hnsw_index.cpp:77-87 | Recording an untouched list keeps the journal exact: each changed list of an old node is in it once, as it was. |
| InsertionJournal.WriteKeepsCover | src/hnsw_index.cpp:180-186 | Changing a recorded list, or any list of the new node, keeps the journal exact. |
| InsertionJournal.RollbackRestores | src/hnsw_index.cpp:54-72 | Replaying the journal and truncating restores the whole state at entry, wherever the insertion stopped. |
| Hnsw.InsertionTransaction.constructor | src/hnsw_index.cpp:46-52 | A transaction starts with an exact, empty journal of the current state. |
| Hnsw.InsertionTransaction.Remember | src/hnsw_index.cpp:77-87 | After remembering, the list may be changed safely; lists recorded before stay recorded. |
| Hnsw.InsertionTransaction.InsertId | src/hnsw_index.cpp:89-95 | The map grows by exactly the new ID, or stays as it was. |
| Hnsw.InsertionTransaction.Destroy | src/hnsw_index.cpp:54-72 | The destructor restores the state at entry unless the transaction was committed. |
| Hnsw.HnswIndex.AppendNode | src/hnsw_index.cpp:172-175 | Vector, ID, node and map entry are appended, or the transaction can still undo what was appended. |
| Hnsw.HnswIndex.TryInsert | src/hnsw_index.cpp:141-189 | Up to the commit, the index is the specified one or the transaction can undo every change. |
| Hnsw.HnswIndex.InsertNormalized | src/hnsw_index.cpp:136-191 | Insertion either yields the specified valid index or leaves the logical state exactly as it was, for every schedule of allocation failures; without failures it succeeds for every new ID. |
| Hnsw.HnswIndex.Add | src/hnsw_index.cpp:121-134 | Dimension, duplicate, capacity and normalization errors are each reported exactly when none before them applies; any failure leaves the index as it was. |
| HnswOperations.ErasedIsValid | src/hnsw_index.cpp:219-227 | Deletion keeps the invariant. |
| HnswOperations.ErasedIsExact | src/hnsw_index.cpp:219-227 | Deletion takes exactly one ID off the live ones and changes no adjacency list. |
| HnswOperations.LiveCount | src/hnsw_index.cpp:288 | size() is the number of nodes that are not tombstones. |
| HnswOperations.LiveIdsAreLive | src/hnsw_index.cpp:193-203 | live_ids lists exactly the live IDs, ascending. |
| HnswOperations.RebuiltIsDense | src/hnsw_index.cpp:205-217 | A rebuilt index satisfies the invariant, has no tombstone, and holds exactly the live IDs in ascending order, each with its stored vector. |
| Rebuilding.RebuiltIsSeeded | src/hnsw_index.cpp:205-217 | A rebuild draws its levels from a generator that starts with the new seed, one draw for each live vector. |
| Rebuilding.RebuildIsCanonical | src/hnsw_index.cpp:205-217 | Two indexes with the same live contents are rebuilt into one and the same index, whatever their graphs, tombstones and histories. |
| HnswOperations.RunKeepsInvariant | src/hnsw_index.cpp:121-227 | The invariant holds after every sequence of add, erase and rebuild, from every index that satisfies it. |
| MutualLinks.LinkStepKeeps | src/hnsw_index.cpp:179-183 | Linking one neighbour back and pruning its list leaves exactly the remaining planned links one-way: what pruning takes away it takes away in both directions. |
| MutualLinks.LinkIsSymmetric | src/hnsw_index.cpp:178-183 | A layer whose only one-way links are the planned ones of the new node is symmetric once all were linked back. |
| MutualLinks.InsertedIsMutual | src/hnsw_index.cpp:136-191 | Insertion keeps links symmetric on every layer, although linking is asymmetric midway and pruning may unlink the new node. |
| MutualLinks.ErasedIsMutual | src/hnsw_index.cpp:219-227 | Deletion keeps links symmetric. |
| MutualLinks.RebuiltIsMutual | src/hnsw_index.cpp:205-217 | The result of a rebuild has symmetric links, whatever index it starts from. |
| MutualLinks.RunKeepsMutual | src/hnsw_index.cpp:121-227 | Every run from an index with symmetric links keeps them symmetric. |
| MutualLinks.RunRepairs | src/hnsw_index.cpp:205-217 | After a rebuild anywhere in a run, links are symmetric for the rest of the run, whatever the run started from. |
| MutualLinks.GrownIsIntact | src/hnsw_index.cpp:116-227 | Every index grown from an empty one satisfies the invariant and has symmetric links. |
| Hnsw.HnswIndex.Erase | src/hnsw_index.cpp:219-227 | Returns whether the ID was live, and has the specified effect. |
| Hnsw.HnswIndex.LiveIdList | src/hnsw_index.cpp:193-203 | The loop returns the ascending live IDs. |
| Hnsw.HnswIndex.Rebuild | src/hnsw_index.cpp:205-217 | Returns a fresh valid index with the specified content, or none when memory runs out; the source is not modified. |
| Hnsw.HnswIndex.constructor | src/hnsw_index.cpp:116-119 | Construction yields an empty valid index with the seeded generator. |
| Hnsw.HnswIndex.Create | src/hnsw_index.cpp:18-39 | Construction fails exactly for invalid configurations. |
| HnswOperations.AnswerIsSound | src/hnsw_index.cpp:244-286 | Every answer lists distinct live entries with their true scores, best first, and exactly min(k, reachable live nodes) of them, whatever the beam width. |
| HnswOperations.AnswerIsExact | src/hnsw_index.cpp:264-286 | If every live node is reachable on layer 0 from where the descent arrives and the effective ef is at least the live count, the answer is the exact top k. |
| HnswOperations.FullAnswerIffReachable | src/hnsw_index.cpp:264-286 | A request for all live vectors is answered exactly if and only if all live nodes are reachable on layer 0. |
| HnswOperations.LiveEntries | src/hnsw_index.cpp:277-283 | The results of the live nodes are exactly the scored live contents. |
| Hnsw.HnswIndex.Search | src/hnsw_index.cpp:244-286 | Context checks, argument checks, descent, layer search and truncation give exactly the specified answer, or the search is interrupted for what its last check found; a stop that is there at the first check ends it at once, a later one within one interval, an answer is given only if the last check found nothing, and there is a call of the context for each node looked at on layer 0 and for each result. |
| Hnsw.HnswIndex.CopyResults | src/hnsw_index.cpp:277-285 | The last loop and the last check deliver all results or none, with one call of the context for each. |
| Hnsw.HnswIndex.SearchLive | src/hnsw_index.cpp:264-275 | Descent, layer search for live nodes and truncation select the specified nodes. |
| Flat.FlatIndex.Create | src/flat_index.cpp:29-34 | Construction fails exactly for dimension zero. |
| Flat.FlatIndex.Add | src/flat_index.cpp:36-62 | The contents gain exactly the normalized entry, or arrays and map stay as they were, whichever append fails; each error is reported exactly when none before it applies. |
| Flat.FlatIndex.Undo | src/flat_index.cpp:54-61 | The handler restores ID array and map. |
| Flat.FlatIndex.Erase | src/flat_index.cpp:64-84 | Swap-and-pop removes exactly one entry of the contents and keeps the ID-to-row map inverse to the ID array. |
| Flat.ShrunkContents | src/flat_index.cpp:70-82 | Moving the last row into the gap and dropping the last row leaves arrays with an inverse map whose contents lack exactly the erased ID. |
| Flat.FlatIndex.Search | src/flat_index.cpp:91-135 | The answer is the best k of all entries by score, then ID, independent of row order, or the search is interrupted for what its last check found; a stop that is there at the first check ends it at once, a later one within one interval; the context is called once before the scan, once for each row, once for each result and once at the end. |
| Flat.FlatIndex.ScanRows | src/flat_index.cpp:109-132 | The bounded heap ends with the best rows: every other row ranks below all kept ones; the rows whose turn it is check, and found nothing if the scan went through. |
| Flat.ReplaceKeepsBeyond | src/flat_index.cpp:119-122 | Replacing the worst kept row by a better one rejects nothing that would still have a place. |
| Equivalence.InsertedContents | src/hnsw_index.cpp:136-191 | Insertion adds exactly one entry to the live contents. |
| Equivalence.ErasedContents | src/hnsw_index.cpp:219-227 | Deletion removes exactly one entry from the live contents. |
| Equivalence.RebuiltContents | src/hnsw_index.cpp:205-217 | Rebuilding changes no entry of the live contents. |
| Equivalence.ScanAnswerUnique | src/flat_index.cpp:91-135 | The exact answer depends only on contents, query and k. |
| Equivalence.GraphAnswerIsScanAnswer | src/hnsw_index.cpp:264-286 | Under the reachability and width condition the graph index returns the very list that the flat index returns on the live vectors. |
| Equivalence.FullAnswersAgreeIff | src/hnsw_index.cpp:264-286 | For requests that ask for everything, both indexes agree if and only if all live nodes are reachable. |
| Connectivity.LinkOnlyAdds | src/hnsw_index.cpp:177-184 | On a layer with at most one node more than the limit, linking a node back adds exactly its reverse links and removes none. |
| Connectivity.InsertedEdges | src/hnsw_index.cpp:136-191 | On every shared layer that has no more old nodes than a list may hold, an insertion adds exactly the links between the new node and its planned neighbours, and removes none. |
| Connectivity.InsertedIsConnected | src/hnsw_index.cpp:136-191 | An insertion leaves every layer connected that has at most one node more than a list may hold: M + 1 above layer 0, 2M + 1 on it. |
| Connectivity.RunKeepsConnected | src/hnsw_index.cpp:121-227 | After every run of add, erase and rebuild each such layer is connected, tombstones included. |
| Connectivity.SmallIndexIsExact | src/hnsw_index.cpp:264-286 | A grown index of at most 2M + 1 nodes reaches every live node for every query, and answers exactly like the flat index whenever k or ef is at least the live count. |
| Isolation.SelectDropsWorst | src/hnsw_index.cpp:411-453 | With one candidate too many, both strategies drop the worst one if it is at least as similar to the best one as to the query. |
| Isolation.CentreFound | src/hnsw_index.cpp:349-409 | In a graph whose first nodes are linked with everybody and rank best, a search no wider than their number finds exactly them, from wherever it starts. |
| Isolation.BaseListOfNear | src/hnsw_index.cpp:155-170 | What a new similar vector is linked to on layer 0, whatever its level and the width of the construction search: everybody, or exactly the first min(efConstruction, 2M) similar vectors. |
| Isolation.NextIsWheel | src/hnsw_index.cpp:136-191 | Up to 2M + 1 vectors, the first one far and the others similar, layer 0 links exactly those pairs of which one is among the first min(efConstruction, 2M) similar ones. |
| Isolation.Shed | src/hnsw_index.cpp:177-184 | Linking a node to 2M neighbours that are all full and all rank node 0 last takes every link from node 0. |
| Isolation.LastCutsOff | src/hnsw_index.cpp:136-191 | The similar vector that makes 2M + 2 nodes leaves node 0 without any link on layer 0, whatever its level. |
| Separation.BaseListIsSelected | src/hnsw_index.cpp:155-170 | The layer-0 list of a new node of any level is selected from what a search finds from some node. |
| Separation.BaseListIsOneSided | src/hnsw_index.cpp:155-170 | If layer 0 keeps two sets of nodes apart, all neighbours planned for a new node are on one side. |
| Separation.InsertedLinksAsPlanned | src/hnsw_index.cpp:177-184 | Every link that insertion adds on layer 0 is one the new node was planned to have, or its reverse. |
| Separation.InsertedStaysDivided | src/hnsw_index.cpp:136-191 | Inserting any vector at any level never joins what layer 0 keeps apart. |
| Separation.RunStaysDivided | src/hnsw_index.cpp:121-227 | No run of add and erase, from any valid index, joins what layer 0 keeps apart. |
| Separation.LostStaysLost | src/hnsw_index.cpp:121-227 | A node that layer 0 cannot reach from another stays unreachable from it through every run of add and erase: only a rebuild can bring it back. |
| TightBound.AddsReachStage | src/hnsw_index.cpp:121-191 | Adding similar vectors leads through three stages: the wheel up to 2M + 1 nodes, node 0 alone at 2M + 2, and nodes 0 and 1 kept apart from then on. |
| TightBound.ReachedExactlyUpToLimit | src/hnsw_index.cpp:121-286 | For every configuration, strategy and generator, wherever two vectors are apart: every grown index of n nodes reaches all its live nodes if and only if n is at most 2M + 1, or more than an index can have. |
| TightBound.OnlyFirstIsFound | src/hnsw_index.cpp:244-286 | An index entered at a node without links on layer 0 answers every query with the vector of that node alone. |
| TightBound.OneMoreIsCutOff | src/hnsw_index.cpp:121-286 | If the generator draws level 0 for the 2M + 2 vectors, the grown index answers every query with the far one, for every M, efConstruction and strategy. |
| TightBound.SixVectors | src/hnsw_index.cpp:121-191 | With M = 2 six vectors are enough: asked for all six, the index finds one, which is not even the best. |
| Bytes.ValueOfLittleEndian | src/hnsw_index_io.cpp:80-112 | Reading back a written integer gives the integer, if it fits the width. |
| Bytes.LittleEndianOfValue | src/hnsw_index_io.cpp:80-112 | Writing back a read integer gives the bytes. |
| SnapshotLayout.DigitOfLittleEndian | src/hnsw_index_io.cpp:80-94 | Byte i of a written integer is its digit i to base 256. |
| CheckedArithmetic.CheckedAdd | src/hnsw_index_io.cpp:41-47 | Addition succeeds exactly when the mathematical sum fits 64 bits, and is then that sum. |
| CheckedArithmetic.CheckedMultiply | src/hnsw_index_io.cpp:49-55 | Multiplication succeeds exactly when the mathematical product fits 64 bits, and is then that product. |
| Checksum.XorCancels | src/hnsw_index_io.cpp:64-67 | Exclusive or with a byte can be undone. |
| Checksum.ScrambleInjective | src/hnsw_index_io.cpp:64-67 | Multiplication by the FNV prime modulo 2^64 is injective, because the prime has an inverse. |
| Checksum.UpdateInjectiveInState | src/hnsw_index_io.cpp:64-67 | For a fixed byte a checksum step is injective in the state. |
| Checksum.UpdateInjectiveInByte | src/hnsw_index_io.cpp:64-67 | For a fixed state a checksum step is injective in the byte. |
| Checksum.SubstitutionChangesHash | src/hnsw_index_io.cpp:64-78 | Replacing any one byte of any input changes its checksum. |
| SnapshotLayout.ChecksumOfA | src/hnsw_index_io.cpp:64-67 | The checksums of the empty input and of the letter a are the published values of 64-bit FNV-1a. |
| Streams.Sink.PutInteger | src/hnsw_index_io.cpp:69-94 | Writing an integer byte by byte appends its little-endian bytes and feeds them to the checksum. |
| Streams.Reader.ReadInteger | src/hnsw_index_io.cpp:96-112 | Reading succeeds exactly when enough bytes are left, returns their little-endian value and feeds them to the checksum if asked to. |
| StoredRows.ReadIds | src/hnsw_index_io.cpp:418-424 | Reading IDs succeeds exactly when all are there and distinct, and builds their inverse map. |
| StoredRows.ReadRows | src/hnsw_index_io.cpp:426-440 | Reading rows succeeds exactly when all are there and each is a finite unit vector. |
| StoredRows.IdMapIsInverse | src/hnsw_index_io.cpp:418-424 | The map built from distinct IDs is the inverse of the ID array. |
| Encoding.ParseRowsSound | src/hnsw_index_io.cpp:427-440 | Accepted rows are exactly what was encoded, with nothing skipped. |
| Encoding.ParseRowsComplete | src/hnsw_index_io.cpp:427-440 | Encoded unit rows are accepted and come back unchanged. |
| HnswFormat.ParseListSound | src/hnsw_index_io.cpp:452-481 | An accepted adjacency list is short enough, in range, without duplicate or self-loop, and its bytes are its encoding. |
| HnswFormat.ParseListComplete | src/hnsw_index_io.cpp:452-481 | The encoding of such a list is accepted and comes back unchanged. |
| HnswFormat.ParseNodesSound | src/hnsw_index_io.cpp:444-484 | Accepted nodes respect level and degree limits, and their bytes are their encoding. |
| HnswFormat.ParseNodesComplete | src/hnsw_index_io.cpp:444-484 | The encoding of such nodes is accepted and comes back unchanged. |
| HnswFile.ParseTailSound | src/hnsw_index_io.cpp:500-532 | An accepted tail has flags 0 or 1, a matching live count and a text that ends the file; its bytes are its encoding. |
| HnswFile.ParseBodySound | src/hnsw_index_io.cpp:416-484 | What all versions start with: an accepted body has distinct IDs, unit rows and fitting nodes, and its bytes are its encoding. |
| HnswFile.ParseBodyComplete | src/hnsw_index_io.cpp:416-484 | The encoding of such a body is accepted and comes back unchanged. |
| HnswFile.ParsePartsSound | src/hnsw_index_io.cpp:418-532 | An accepted payload has distinct IDs, unit rows and fitting nodes, and its bytes are its encoding. |
| HnswFile.ParsePartsComplete | src/hnsw_index_io.cpp:418-532 | The encoding of such a payload is accepted and comes back unchanged. |
| HnswFile.ReadHeaderSound | src/hnsw_index_io.cpp:170-208 | The bytes of an accepted header are the encoding of its fields. |
| HnswFile.ReadHeaderComplete | src/hnsw_index_io.cpp:149-208 | An encoded header with a known version is accepted and comes back unchanged. |
| HnswFile.LoadedMeansChecksum | src/hnsw_index_io.cpp:393-546 | A file that loads as version 3 carries the checksum of all its other bytes. |
| HnswFile.SubstitutionBreaksChecksum | src/hnsw_index_io.cpp:544-546 | One substitution in a file with a matching checksum makes it mismatch. |
| HnswFile.SubstitutionIsRejected | src/hnsw_index_io.cpp:388-550 | A loadable file with any one byte replaced is rejected; the one exception is the low version byte, which can turn the file into one of an older version. |
| HnswSnapshot.LinksFit | src/hnsw_index_io.cpp:444-499 | Every graph in order passes the degree, range, duplicate, self-loop and presence checks. |
| HnswSnapshot.FittingLinks | src/hnsw_index_io.cpp:444-499 | Lists that pass these checks make a graph in order. |
| HnswSnapshot.DeletedCounts | src/hnsw_index_io.cpp:505-515 | The number of set flags is the number of tombstones. |
| HnswSnapshot.PayloadWithinBounds | src/hnsw_index_io.cpp:222-264 | What is saved lies between the smallest and the largest payload the loader accepts for its header. |
| HnswSnapshot.SaveThenLoad | src/hnsw_index_io.cpp:279-550 | Loading a saved index gives back configuration and whole state, generator included, if and only if the worst-case payload and the file length fit 64 bits; otherwise the file is rejected. |
| HnswSnapshot.GrownIndexComesBack | src/hnsw_index_io.cpp:279-550 | This holds for every index that add, erase and rebuild can produce. |
| HnswSnapshot.LoadIsSound | src/hnsw_index_io.cpp:388-550 | Every accepted file yields an index that satisfies the invariant, so it can be searched, changed and rebuilt. |
| HnswSnapshot.LoadIsCanonical | src/hnsw_index_io.cpp:388-550 | Every accepted file is byte for byte the encoding of the index it yields and its generator text. |
| HnswSnapshot.LoadThenSave | src/hnsw_index_io.cpp:279-550 | Saving a loaded index reproduces its file if and only if the file spells the generator state as the platform prints it. |
| SnapshotLayout.HnswHeader | src/hnsw_index_io.cpp:149-168 | Every field of the header of a saved index at its literal offset, the magic bytes, and the checksum at 104, which covers everything but itself. |
| SnapshotLayout.TwoNodesPayload | src/hnsw_index_io.cpp:332-354 | The payload of one small index, byte by byte. |
| HnswVersions.AnyUnfolds | src/hnsw_index_io.cpp:388-550 | The specified loader is the loader step by step: header, body, graph checks, what the version adds, checksum of what was read. |
| HnswVersions.CurrentLoads | src/hnsw_index_io.cpp:388-550 | A file that loads as version 3 yields the same index for the loader of all versions. |
| HnswVersions.LoadAnyIsSound | src/hnsw_index_io.cpp:388-550 | Every accepted file of any version yields an index that satisfies the invariant; those of versions 1 and 2 have no tombstones. |
| HnswVersions.FirstIsAccepted | src/hnsw_index_io.cpp:388-550 | Every version-1 file with a fitting body and the checksum of header and body is accepted, whatever follows the nodes, and its generator starts from the seed. |
| HnswVersions.SecondIsAccepted | src/hnsw_index_io.cpp:388-550 | Every version-2 file with a fitting body, a readable generator text and the checksum of it all is accepted. |
| HnswVersions.OldIsCanonical | src/hnsw_index_io.cpp:388-550 | Every accepted file of version 1 or 2 is one of these. |
| HnswVersions.UnreadBytesAreIgnored | src/hnsw_index_io.cpp:500-546 | Bytes behind the nodes of a version-1 file make no difference to the loader. |
| HnswVersions.OneUnreadByte | src/hnsw_index_io.cpp:500-546 | Such files exist: two that differ in one byte and load to the same index. |
| HnswVersions.OneByteIsNoticed | src/hnsw_index_io.cpp:388-550 | An accepted file of version 2 or 3 with one byte replaced is accepted if and only if the low version byte became 1 and what version 1 reads passes its checks with the stored checksum. |
| HnswVersions.SavingUpgrades | src/hnsw_index_io.cpp:279-550 | Loading a file of any version and saving it gives a version-3 file that loads to the very same index, if and only if the sizes fit 64 bits. |
| SnapshotLimits.RunFromFile | apps/server.cpp:231-234 | Every run of add, erase and rebuild from an accepted file of any version keeps the invariant; symmetric links stay symmetric; from the first rebuild on they are symmetric in any case. |
| SnapshotLimits.LoadedIsIntactIff | src/hnsw_index_io.cpp:444-499 | A loaded index has all that a grown one has if and only if all its layers are symmetric. |
| SnapshotLimits.OneWayIsAccepted | src/hnsw_index_io.cpp:444-499 | The loader accepts a file of two nodes whose only link is one-way, and yields exactly that index. |
| SnapshotLimits.SavedButNotLoadable | src/hnsw_index_io.cpp:241-261 | For every platform and codec whose text for the final generator state fits: an index grown by twenty million additions with the largest M is saved into a file that the loader rejects. |
| SnapshotLimits.PlainIndexIsLost | src/hnsw_index_io.cpp:241-261 | One such platform, codec and vector, with nothing left open. |
| SnapshotLimits.ManyNodesFit | src/hnsw_index_io.cpp:280-316 | Whatever its links, every index of that size has a payload that fits 64 bits. |
| RebuildTool.RebuiltPasses | tools/rebuild_hnsw_index.cpp:108-110 | A rebuilt index has the same live IDs as its source, no tombstones, and as many nodes as the source has live vectors. |
| RebuildTool.RebuildFile | tools/rebuild_hnsw_index.cpp:96-113 | For every input file, of any version, the tool reports a rejected input or exhausted memory, or saves an index that is whole and symmetric; its own comparison of both indexes never fails. |
| HnswSaving.PayloadLength | src/hnsw_index_io.cpp:280-316 | The length computed in checked arithmetic is the length of the payload, and fails exactly when that exceeds 64 bits. |
| HnswSaving.CountDeleted | src/hnsw_index_io.cpp:288-292 | Counting deleted nodes gives the number of set flags. |
| HnswSaving.PutPayload | src/hnsw_index_io.cpp:332-354 | One pass over IDs, rows, lists, flags and text produces exactly the payload, as bytes and as checksum. |
| HnswSaving.PutHeader | src/hnsw_index_io.cpp:128-168 | Magic and header fields are written in format order. |
| HnswSaving.Save | src/hnsw_index_io.cpp:279-386 | The serializer produces exactly the specified file, and fails exactly when specified. |
| HnswLoading.ReadHeader | src/hnsw_index_io.cpp:170-208 | Reading the header accepts what the format accepts and returns the stored checksum. |
| HnswLoading.ValidateHeader | src/hnsw_index_io.cpp:210-273 | For each version, validation in checked arithmetic accepts exactly the headers whose fields, sizes and entry point are in order. |
| HnswLoading.ReadNeighbors | src/hnsw_index_io.cpp:467-481 | Entries are checked against range, node and a set of those seen; the list is accepted exactly when the format allows it. |
| HnswLoading.ReadList | src/hnsw_index_io.cpp:452-481 | A list is accepted exactly when degree limit, count and remaining bytes allow it. |
| HnswLoading.ReadNodes | src/hnsw_index_io.cpp:442-484 | All nodes are read as specified, with the highest level observed on the way. |
| HnswLoading.CheckPresence | src/hnsw_index_io.cpp:491-499 | The triple loop accepts exactly the graphs whose neighbours are present on the referring layer. |
| HnswLoading.ReadTombstones | src/hnsw_index_io.cpp:500-517 | Live count and flags are accepted exactly as specified. |
| HnswLoading.ReadText | src/hnsw_index_io.cpp:518-543 | The generator text is accepted exactly if its length is in range and reaches the last byte, and it can be read back. |
| HnswLoading.ReadBody | src/hnsw_index_io.cpp:416-484 | IDs, rows and nodes are read as specified, with the ID map and the highest level built on the way. |
| HnswLoading.CheckGraph | src/hnsw_index_io.cpp:485-499 | The graph as a whole is accepted exactly as specified. |
| HnswLoading.ReadRest | src/hnsw_index_io.cpp:500-543 | Tombstones are read from version 3 on and the generator text from version 2 on; without them all nodes are live and the generator starts from the seed. |
| HnswLoading.LoadPayload | src/hnsw_index_io.cpp:393-549 | Reading, checking and filling the index yields the specified state, for every version. |
| HnswLoading.Load | src/hnsw_index_io.cpp:388-550 | The loader accepts exactly the specified files of all three versions and returns a fresh valid index with the specified configuration and state. |
| FlatFile.SaveThenLoad | src/flat_index_io.cpp:131-258 | Loading saved rows gives them back if and only if the length of the whole file fits 64 bits. |
| FlatFile.LoadIsSoundAndCanonical | src/flat_index_io.cpp:170-258 | An accepted file yields distinct IDs and unit rows of one positive dimension, and saving them writes exactly that file. |
| FlatFile.SubstitutionIsRejectedUnlessEmpty | src/flat_index_io.cpp:176-251 | A loadable file with any one byte replaced is rejected, except that the dimension of an empty index can be changed to another positive one. |
| FlatFile.BothLoad | src/flat_index_io.cpp:194-210 | Two files that differ in one byte and both load are of empty indexes and differ in dimension. |
| SnapshotLayout.FlatHeader | src/flat_index_io.cpp:131-168 | Every field of the header of a saved flat index at its literal offset, the magic bytes, and the checksum at 48, which covers the payload only. |
| FlatIndexIO.CheckedPayloadSize | src/flat_index_io.cpp:112-118 | The payload size is computed exactly, or fails exactly when it exceeds 64 bits. |
| FlatIndexIO.Save | src/flat_index_io.cpp:131-168 | The serializer produces exactly the specified file. |
| FlatIndexIO.ReadPayload | src/flat_index_io.cpp:218-248 | IDs and rows are accepted exactly as specified, and all their bytes go into the checksum. |
| FlatIndexIO.Load | src/flat_index_io.cpp:170-258 | The loader accepts exactly the specified files and returns a fresh valid index with the stored rows. |
| VectorStoreModel.VectorStore.Create | src/vector_store.cpp:12-35 | Construction fails exactly without an index, for a zero batch limit, for an inconsistent or oversized identity, and for any identity on the writable path. |
| VectorStoreModel.PreparedActivatesIff | src/vector_store.cpp:102-134 | A prepared snapshot can be activated exactly while the version being served is the one it was prepared against and its generation is still newer. |
| VectorStoreModel.VersionRisesIff | src/vector_store.cpp:119-134 | An activation raises the version exactly if the new one is not 0, and it is 0 exactly after the last version of 64 bits. |
| VectorStoreModel.VersionFalls | src/vector_store.cpp:119-134 | A hand-made snapshot of version 0 is accepted after the last version, which preparation never makes. |
| VectorStoreModel.ActivationsMoveForward | src/vector_store.cpp:119-134 | Over any sequence of activations of snapshots with a version above 0, refused or not, what is served stays the same or rises in both version and generation. |
| VectorStoreModel.RivalsAreRefused | src/vector_store.cpp:102-134 | Of all snapshots prepared against the same one at most one is ever served: the others stay refused whatever is activated later. |
| VectorStoreModel.VectorStore.ReplaceIndex | src/vector_store.cpp:58-95 | Replacement raises the version by one, and is refused on the writable path, without an index, for a managed snapshot and for an exhausted version. |
| VectorStoreModel.VectorStore.ActivateSnapshot | src/vector_store.cpp:119-134 | Activation installs exactly the next version, in 64-bit arithmetic, with a newer generation, or leaves the served snapshot alone; nothing given is refused. |
| SnapshotPublicationObject.SnapshotPublication.Create | service/snapshot_publication.cpp:119-137 | Construction fails exactly without a store or a file limit and, if publication is enabled, for a writable store or an unidentified snapshot; the fence starts at the generation being served. |
| SnapshotPublicationObject.SnapshotPublication.Begin | service/snapshot_publication.cpp:139-172 | Admission has the specified effect and outcome, which PublicationRuns.AdmittedIff describes. |
| SnapshotPublicationObject.SnapshotPublication.StartComplete | service/snapshot_publication.cpp:174-182 | The first locked half copies the attempt of the current token, or refuses. |
| SnapshotPublicationObject.SnapshotPublication.FinishComplete | service/snapshot_publication.cpp:187-194 | The second locked half installs the candidate only if the token is still current. |
| SnapshotPublicationObject.SnapshotPublication.Fail | service/snapshot_publication.cpp:196-209 | A failure ends only the preparation it belongs to. |
| SnapshotPublicationObject.SnapshotPublication.Rejected | service/snapshot_publication.cpp:211-220 | A rejection records bounded metadata and disturbs no preparation or candidate. |
| SnapshotPublicationObject.SnapshotPublication.Activate | service/snapshot_publication.cpp:222-255 | Activation has the specified effect on status and store. |
| PublicationRuns.RunIsSafe | service/snapshot_publication.cpp:139-255 | In every state of every interleaving: while preparing or ready, highest = accepted > serving generation; a ready candidate has the next version; accepted attempts are fenced; served snapshots progress. |
| PublicationRuns.ReadyCandidateActivates | service/snapshot_publication.cpp:241-253 | Activating the ready candidate is never refused by the store. |
| PublicationRuns.CandidateIsCurrent | service/snapshot_publication.cpp:187-193 | An installed candidate was loaded for the current manifest and generation. |
| PublicationRuns.NoShortcutWhileOutstanding | service/snapshot_publication.cpp:233-240 | While a preparation or candidate is outstanding, the already-active shortcut cannot fire. |
| PublicationRuns.OneManifestPerGeneration | service/snapshot_publication.cpp:145-151 | Each generation is accepted with at most one manifest. |
| PublicationRuns.VersionIdentifiesSnapshot | src/vector_store.cpp:82-89 | Snapshots served under the same version are the same snapshot. |
| PublicationRuns.StepMovesForward | service/snapshot_publication.cpp:145-171 | The fence changes only by an admission and never falls; the served version rises by exactly one when the ready candidate is activated, together with the generation, and on no other step. |
| PublicationRuns.RunMovesForward | service/snapshot_publication.cpp:139-255 | Over any run the fence and the served version never decrease, and history is only extended. |
| PublicationRuns.LateCompletionIsHarmless | service/snapshot_publication.cpp:174-209 | Once a newer preparation was admitted, whatever happened since, completing or failing an older attempt changes nothing. |
| PublicationRuns.UndisturbedIsPublished | service/snapshot_publication.cpp:174-255 | In every reachable state a completion that is not overtaken ends with a candidate exactly when a version is left, and the activation that follows serves the loaded index under the next version. |
| PublicationRuns.AdmittedIff | service/snapshot_publication.cpp:139-172 | In every reachable state exactly these are admitted: a valid manifest, while nothing is being prepared and a token is left, for a generation above the one served that is newer than every admitted one or belongs to that very manifest; an admission opens the next preparation. |
| PublicationRuns.RetryIsAdmissible | service/snapshot_publication.cpp:147-149 | The attempt admitted last is admitted again once it failed, or as long as its candidate was not activated, exactly while its generation is above the one served. |
| PublicationRuns.FailureEnds | service/snapshot_publication.cpp:196-209 | The failure of the current preparation ends it, leaves everything that is served alone, and the same manifest and generation may be tried again. |
| PublicationRuns.AdmissibleIsPublished | service/snapshot_publication.cpp:139-255 | From every reachable state, whatever failed before, an admissible attempt that runs undisturbed is served under the next version. |
| PublicationRuns.OutstandingStays | service/snapshot_publication.cpp:139-255 | A preparation ends only by its own completion or failure, and a candidate is lost only to a newer admission or to the activation that serves it. |
| PublicationRuns.ActivatedIff | service/snapshot_publication.cpp:222-255 | Exactly the ready candidate can be activated, and once more what is served already unless a newer generation was admitted; only the former changes what is served. |
| PublicationRuns.RejectionIsBounded | service/snapshot_publication.cpp:211-220 | A rejected request leaves a canonical ID or none and a revision of at most 256 characters in the status, and an outstanding preparation or candidate does not notice it. |
| PublicationRuns.PinnedQueriesAgree | src/vector_store.cpp:149-158 | Two queries that insist on the same snapshot ID, at any two times after the startup snapshot was replaced, are answered from files with the same hash. |
| SearchContextModel.FirstReasonWins | include/fast_vector/search_context.h:28-31 | Of any sequence of requests the first real one decides the reason, and no later one changes it. |
| SearchContextModel.SearchContext.Check | include/fast_vector/search_context.h:48-59 | A check finds what the shared reason and the clock say at that moment, and nothing if there is neither cancellation nor deadline. |
| SearchContextModel.SearchContext.Checkpoint | include/fast_vector/search_context.h:60-67 | When the countdown is due, the call finds exactly what a check finds at that moment, and otherwise nothing; no call is ever an interval or more away from a check that found nothing. |
| SearchContextModel.EndsInTime | include/fast_vector/search_context.h:48-67 | A search that was stopped while scanning, or whose last call checked, ends as it should: within one interval of the time from which a stop is there, or of its start. |
| SearchContextModel.NextCheck | include/fast_vector/search_context.h:60-67 | The next check comes after exactly the remaining items, which are fewer than the interval. |
| SearchContextModel.DisabledNeverChecks | include/fast_vector/search_context.h:48-61 | A context without deadline and cancellation never checks. |
| SearchExecutorObject.SearchExecutor.Create | src/search_executor.cpp:14-30 | Construction fails exactly without a store, for a limit that is not positive, or if a worker thread cannot be started. |
| SearchExecutorObject.SearchExecutor.Submit | src/search_executor.cpp:34-58 | Admission has the specified effect; a task is rejected exactly when stopping or full. |
| SearchExecutorObject.SearchExecutor.Cancel | src/search_executor.cpp:92-108 | Cancellation signals the task and settles it at once if it is still waiting. |
| SearchExecutorObject.SearchExecutor.RemoveAt | src/search_executor.cpp:102-107 | A waiting task is taken out of the queue and settled, and the order of the others is kept. |
| SearchExecutorObject.SearchExecutor.FindWaiting | src/search_executor.cpp:99-101 | Returns the first position of the task in the queue, or its length. |
| SearchExecutorObject.SearchExecutor.Stop | src/search_executor.cpp:110-128 | Stopping signals running tasks and settles every waiting one, once. |
| SearchExecutorObject.SearchExecutor.DrainQueue | src/search_executor.cpp:119-125 | The loop empties the queue as specified. |
| SearchExecutorObject.SearchExecutor.NextTask | src/search_executor.cpp:146-154 | A worker waits, exits or takes the task at the front. |
| SearchExecutorObject.SearchExecutor.MarkStarted | src/search_executor.cpp:162-165 | The section before the store call counts the task as started. |
| SearchExecutorObject.SearchExecutor.FinishTask | src/search_executor.cpp:173-178 | The last locked section of a worker settles its task and frees its slot. |
| ExecutorRuns.RunIsSafe | src/search_executor.cpp:34-180 | The invariant holds in every state of every interleaving of callers and workers. |
| ExecutorRuns.CountersBalance | src/search_executor.cpp:34-180 | Admitted = queued + running + completed; completed = succeeded + failed + cancelled + expired; queued and running stay within their limits. |
| ExecutorRuns.RemovedNeverRuns | src/search_executor.cpp:92-128 | A task removed while waiting never reaches the store and never succeeds; every success went through the store. |
| ExecutorRuns.DispatchIsFifo | src/search_executor.cpp:146-152 | Tasks are dispatched in admission order, before everything still waiting. |
| ExecutorRuns.RunSettlesOnce | src/search_executor.cpp:60-79 | A promise that has a value keeps it through every run. |
| ExecutorRuns.SignalledNeverSucceeds | src/vector_store.cpp:145-175 | A task that is signalled, or whose deadline passes, before the store made its last check never succeeds, in any run. |
| ExecutorRuns.CancelledInTime | src/search_executor.cpp:92-108 | In every reachable state a cancellation of an unsettled task that the store has not returned from takes: the task never succeeds afterwards. |
| ExecutorRuns.ExpiredInTime | src/vector_store.cpp:145-175 | In every reachable state a task whose deadline passes before the store has returned from it never succeeds afterwards. |
| ExecutorReasons.ReasonsAreGenuine | src/search_executor.cpp:60-90 | In every interleaving a task settled as interrupted was asked to stop for exactly that reason, or had a deadline and it has passed. |
| ExecutorProgress.WorkersProceed | src/search_executor.cpp:142-180 | In every reachable state with workers and an unsettled task, stopped or not, some worker has a step to take. |
| ExecutorProgress.RunsAreBounded | src/search_executor.cpp:142-180 | In every run the workers take at most six steps for each submission and what was pending before. |
| ExecutorRuns.StoppedTasksHaveReasons | src/search_executor.cpp:110-128 | After a stop nothing waits and every unsettled task carries a reason. |
| ExecutorRuns.StopIsPermanent | src/search_executor.cpp:45-49 | Whatever happens after a stop, it stays in force, nothing waits and nothing is admitted. |
| ExecutorRuns.AfterStop | src/search_executor.cpp:110-128 | In every state of every run a stop is possible, and in every state after it nothing waits, nothing was admitted and every unsettled task carries a reason. |
| ExecutorRuns.StoppedStepsDecrease | src/search_executor.cpp:142-180 | After a stop every worker step decreases a measure that no other step raises. |
| ExecutorRuns.StoppedRunsAreBounded | src/search_executor.cpp:142-180 | After a stop, workers take a bounded number of steps whatever callers do. |
| ExecutorRuns.StoppedWorkersProceed | src/search_executor.cpp:142-180 | After a stop no worker is stuck: each that has not exited has a step to take, waiting at most for the store. |
| ExecutorRuns.AllExitedMeansAllSettled | src/search_executor.cpp:130-180 | When all workers have exited every admitted task is settled, queued = running = 0 and completed = admitted. |
| ExecutorEffects.CountersTally | src/search_executor.cpp:60-79 | In every interleaving succeeded, failed, cancelled and expired are each the number of promises settled that way, and started is the number of tasks that reached the store. |
| ExecutorEffects.AdmittedIff | src/search_executor.cpp:44-56 | In every reachable state a submission is admitted exactly while the executor runs and the queue has room; it is then last in line, unsettled and unsignalled. |
| ExecutorEffects.WaitingIsCancelled | src/search_executor.cpp:92-108 | A waiting task that is cancelled is settled at once with the first reason requested of it; the others keep order, promises and reasons. |
| ExecutorEffects.StopIsExact | src/search_executor.cpp:110-128 | The first stop signals exactly the tasks that wait or are held by a worker, and settles exactly the waiting ones, each with the first reason requested of it. |
| ExecutorEffects.FrontIsServed | src/search_executor.cpp:142-180 | The task at the front of the queue that nobody stops gets its result from an idle worker, and nobody else is touched. |
| ExecutorEffects.OutcomeIsDelivered | src/search_executor.cpp:173-178 | What a store call or check came to is what the task is settled with, in every reachable state. |
| ExecutorEffects.PeaksAreAttained | src/search_executor.cpp:51-53 | Each published peak was the number of waiting, or of running, tasks at some point of the run. |

## Left out

- Hnsw.HnswIndex.Search: the clock and other threads are a function from the number of calls to what a check sees; that a set reason stays set is not assumed of it. The calls made on the way down to layer 0 are counted by the methods for each layer only.
- Hnsw.HnswIndex.InsertNormalized: the `max_size` guard on vector storage is not modelled; sequences have no largest size.
- HnswLoading.Load: `max_size` guards are not modelled; sequences have no largest size.
- HnswLoading.ReadHeader: the fields are read in one loop and compared afterwards, where the source compares some between reads; both reject the same files.
- HnswSaving.PutPayload: the source writes its loops twice, once for the checksum and once for the file; here one routine runs twice.
- VectorStoreModel.VectorStore.AcquireForSearch: only the guards and the acquired identity of a query; query counters and the writable path (`add`, `add_batch`, timed lock) are not modelled.
- SearchExecutorObject.SearchExecutor.Create: how many threads can be started is a parameter; joining the started ones after a failure is not modelled.
- TightBound.OneMoreIsCutOff: which one vector every query gets is stated only while the generator draws level 0; that some live node is missed holds for all levels.
- RebuildTool.RebuildFile: publishing the saved file durably and validating it by loading it again are not modelled; whether it loads is `HnswSnapshot.SaveThenLoad`.
- Floating point: components are 32-bit patterns, similarity and normalization are functions the platform supplies, scores are integers because they are only compared and never NaN; `normalize` is taken to return a finite vector of unit norm and the same length.
- Layout of vectors as one flat array: vectors are rows, so a row cannot be misaligned.
- Scores cached in queue entries: queues hold nodes and scores come from the view.
- The generator: its state is opaque, it draws some level that is capped at 63, and its text form is a pair of functions of which only reading back what was printed is assumed.
- Streams and files: opening, flushing, staging, renaming and durable publishing are not modelled; a file is its bytes.
- Verification of a snapshot against its manifest: an oracle that returns an index of the promised checksum, dimension and size, or fails.
- Memory ordering, condition variables and spurious wake-ups: each mutex section and each atomic operation is one step.
- Timing fields, statistics of graph degrees, resident set size, logging, gRPC handlers, batch search, command lines and Python tools: no property of the above depends on them.
- Recall quality and level distribution: probabilistic.
