/** The approximate index seen as the same abstract value as the exact one, and when their answers
    agree. */
module Equivalence {
  import opened Numbers
  import opened Ranking
  import opened Configuration
  import opened GraphLinks
  import opened HnswState
  import opened HnswOperations
  import opened InsertionPlan
  import opened Flat

  /** Insertion adds exactly one entry to the live contents. */
  lemma InsertedContents(config: Config, p: Platform, s: State, id: VectorId, v: Vector)
    requires Insertable(config, p, s, id, v)
    ensures |s.vectors| == |s.graph|
    ensures var r := Inserted(config, p, s, id, v);
            |r.vectors| == |r.graph| && LiveContents(r) == LiveContents(s)[id := v]
  {
    InsertedFields(config, p, s, id, v);
    InsertedTombstones(config, p, s, id, v);
    hide Inserted, GraphOk, LiveContents, EntryOk;
    ContentsGrow(s, Inserted(config, p, s, id, v), id, v);
  }

  lemma ContentsGrow(s: State, r: State, id: VectorId, v: Vector)
    requires IdsOk(s.ids, s.idToNode) && |s.ids| == |s.vectors| == |s.graph| && id !in s.idToNode
    requires r.vectors == s.vectors + [v] && r.idToNode == s.idToNode[id := |s.ids|]
    requires |r.graph| == |s.graph| + 1 && Tombstones(r.graph) == Tombstones(s.graph)
    ensures LiveContents(r) == LiveContents(s)[id := v]
  {
    forall x | x in r.idToNode ensures IsLive(r, x) <==> x == id || IsLive(s, x) {
      assert r.idToNode[x] in Tombstones(r.graph) <==> r.idToNode[x] in Tombstones(s.graph);
    }
  }

  lemma InsertedTombstones(config: Config, p: Platform, s: State, id: VectorId, v: Vector)
    requires Insertable(config, p, s, id, v)
    ensures var r := Inserted(config, p, s, id, v);
            Tombstones(r.graph) == Tombstones(s.graph) && |r.graph| == |s.graph| + 1
  {
    hide Inserted, Insertable, Tombstones;
    InsertedShape(config, p, s, id, v);
    OneMoreLive(s.graph, Inserted(config, p, s, id, v).graph);
  }

  lemma OneMoreLive(g: Graph, h: Graph)
    requires |h| == |g| + 1 && !h[|g|].deleted && forall m :: 0 <= m < |g| ==> h[m].deleted == g[m].deleted
    ensures Tombstones(h) == Tombstones(g)
  {
  }

  /** Deletion removes exactly one entry. */
  lemma ErasedContents(config: Config, p: Platform, s: State, id: VectorId)
    requires Valid(config, p, s)
    ensures |s.vectors| == |s.graph| && LiveContents(Erased(s, id)) == LiveContents(s) - {id}
  {
  }

  /** Rebuilding changes no entry. */
  lemma RebuiltContents(config: Config, p: Platform, s: State, seed: nat)
    requires Valid(config, p, s) && seed <= UINT64_MAX
    ensures var r := Rebuilt(config, p, s, seed);
            |s.vectors| == |s.graph| && |r.vectors| == |r.graph| && LiveContents(r) == LiveContents(s)
  {
    hide Rebuilt, Valid, LiveContents;
    RebuiltIsDense(config, p, s, seed);
    ValidLengths(config, p, s);
    var r := Rebuilt(config, p, s, seed);
    ValidLengths(config.(randomSeed := seed), p, r);
    RebuiltInverse(config.(randomSeed := seed), p, r);
    SameContents(s, r);
  }

  lemma SameContents(s: State, r: State)
    requires |s.vectors| == |s.graph| && |r.vectors| == |r.graph|
    requires forall id :: id in r.idToNode ==> IsLive(s, id)
    requires forall id :: IsLive(s, id) ==> IsLive(r, id) && r.vectors[r.idToNode[id]] == s.vectors[s.idToNode[id]]
    ensures LiveContents(r) == LiveContents(s)
  {
  }

  lemma RebuiltInverse(config: Config, p: Platform, r: State)
    requires Valid(config, p, r) && forall n :: 0 <= n < |r.graph| ==> !r.graph[n].deleted
    ensures forall id :: id in r.idToNode ==> IsLive(r, id)
  {
  }

  /** A complete scan has one answer, however the rows are ordered. */
  lemma ScanAnswerUnique(dimension: nat, p: Platform, contents: map<VectorId, Vector>, query: Vector, k: nat,
                         r: SearchOutcome, t: SearchOutcome)
    requires Answers(dimension, p, contents, query, k, r) && Answers(dimension, p, contents, query, k, t)
    ensures r == t
  {
    if k > 0 && |query| == dimension && p.normalize(query).Unit? {
      TopKUnique(r.results, t.results, Entries(p, contents, p.normalize(query).vector), k);
    }
  }

  /** With every live node reachable and a beam as wide as the live count, the graph index gives the
      very list that the exact index gives on the live vectors. */
  lemma GraphAnswerIsScanAnswer(config: Config, p: Platform, s: State, query: Vector, k: nat, ef: nat, r: SearchOutcome)
    requires Queried(config, p, s, query, k, ef) && AllReached(config, p, s, query)
    requires Most(k, ef) >= |Eligible(s.graph, true)|
    requires Answers(config.dimension, p, LiveContents(s), query, k, r)
    ensures Answer(config, p, s, query, k, ef) == r
  {
    AnswerIsExact(config, p, s, query, k, ef);
    hide Valid, AllReached, IsTopK;
    ScanAnswerUnique(config.dimension, p, LiveContents(s), query, k, r, Answer(config, p, s, query, k, ef));
  }

  /** For requests that ask for everything, the two agree exactly when all live nodes are reachable. */
  lemma FullAnswersAgreeIff(config: Config, p: Platform, s: State, query: Vector, k: nat, ef: nat, r: SearchOutcome)
    requires Queried(config, p, s, query, k, ef) && k >= |Eligible(s.graph, true)|
    requires Answers(config.dimension, p, LiveContents(s), query, k, r)
    ensures Answer(config, p, s, query, k, ef) == r <==> AllReached(config, p, s, query)
  {
    FullAnswerIffReachable(config, p, s, query, k, ef);
    hide Valid, AllReached, IsTopK, Answer;
    if IsExact(config, p, s, query, k, ef) {
      ScanAnswerUnique(config.dimension, p, LiveContents(s), query, k, r, Answer(config, p, s, query, k, ef));
    }
  }
}
