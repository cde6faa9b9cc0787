/** The bound of `Connectivity` cannot be raised: of every larger size there is a grown index in which some nodes
    are out of reach of every query. The far vector of `Isolation` starts it. */
module TightBound {
  import opened Ranking
  import opened Reachability
  import opened LayerSearch
  import opened Configuration
  import opened GraphLinks
  import opened HnswState
  import opened HnswOperations
  import opened Connectivity
  import opened Separation
  import opened Isolation

  // ---------- Growing ----------

  /** Layer 0 keeps nodes 0 and 1 apart. */
  ghost predicate Parted(g: Graph) {
    exists side: set<nat> :: Divided(g, side) && 0 in side && 1 !in side
  }

  /** What layer 0 looks like after `k` additions: a wheel up to 2M + 1 nodes, then node 0 alone, and never
      again in one piece. */
  ghost predicate Stage(config: Config, g: Graph, k: nat) {
    if k <= 2 * config.maxConnections + 1 then Wheel(g, Centre(config))
    else Parted(g) && (k == 2 * config.maxConnections + 2 ==> forall b: nat :: !Edge(g, 0, 0, b))
  }

  lemma AloneIsParted(g: Graph)
    requires Symmetric(g, 0) && forall b: nat :: !Edge(g, 0, 0, b)
    ensures Parted(g)
  {
    forall a: nat, b: nat | Edge(g, 0, a, b) ensures a in {0} <==> b in {0} {
      assert Edge(g, 0, b, a);
    }
    assert Divided(g, {0});
  }

  lemma InsertedStaysParted(config: Config, p: Platform, s: State, id: VectorId, v: Vector)
    requires Insertable(config, p, s, id, v) && Parted(s.graph) && |s.graph| > 1
    ensures Parted(Inserted(config, p, s, id, v).graph)
  {
    hide Valid, Inserted, Divided;
    var side: set<nat> :| Divided(s.graph, side) && 0 in side && 1 !in side;
    var other := InsertedStaysDivided(config, p, s, id, v, side);
    assert 0 in other && 1 !in other;
  }

  /** One more near vector, whatever its level. */
  lemma NextStage(config: Config, p: Platform, far: Vector, near: Vector, s: State, k: nat)
    requires Cluster(config, p, far, near, s, k) && Stage(config, s.graph, k) && StoredApart(config, p, far, near)
    requires k < UINT32_MAX
    ensures Insertable(config, p, s, k, near) && Accepts(config, p, s, k, near) && p.normalize(near) == Unit(near)
    ensures var r := Inserted(config, p, s, k, near);
            Cluster(config, p, far, near, r, k + 1) && Stage(config, r.graph, k + 1)
  {
    hide Valid, Inserted, Cluster, Wheel, Parted, Insertable, Edge, Centre;
    NextIsCluster(config, p, far, near, s, k);
    ClusterFacts(config, p, far, near, s, k);
    var r := Inserted(config, p, s, k, near);
    if k <= 2 * config.maxConnections {
      NextIsWheel(config, p, far, near, s, k);
    } else if k == 2 * config.maxConnections + 1 {
      LastCutsOff(config, p, far, near, s, k);
      ClusterIsMutual(config, p, far, near, r, k + 1);
      AloneIsParted(r.graph);
    } else {
      InsertedStaysParted(config, p, s, k, near);
    }
  }

  lemma ClusterIsMutual(config: Config, p: Platform, far: Vector, near: Vector, s: State, k: nat)
    requires Cluster(config, p, far, near, s, k)
    ensures Valid(config, p, s) && Symmetric(s.graph, 0)
    ensures |s.ids| == |s.graph| == k && s.deletedCount == 0 && Tombstones(s.graph) == {}
  {
  }

  lemma {:induction false} AddsReachStage(config: Config, p: Platform, far: Vector, near: Vector, s: State, k: nat,
                                          end: nat)
    requires Cluster(config, p, far, near, s, k) && Stage(config, s.graph, k) && StoredApart(config, p, far, near)
    requires k <= end <= UINT32_MAX
    ensures Valid(config, p, s)
    ensures var (c, r) := Run(config, p, s, Adds(near, k, end));
            c == config && Cluster(config, p, far, near, r, end) && Stage(config, r.graph, end)
    decreases end - k
  {
    hide Valid, Run, Inserted, Insertable, Accepts, Cluster, Stage, StoredApart;
    ClusterIsMutual(config, p, far, near, s, k);
    if k == end {
      AddsNothing(config, p, s, near, k);
    } else {
      NextStage(config, p, far, near, s, k);
      RunAdds(config, p, s, k, near, Adds(near, k + 1, end));
      AddsReachStage(config, p, far, near, Inserted(config, p, s, k, near), k + 1, end);
    }
  }

  /** One far vector, then near ones, `n` in all. */
  ghost function FarFirst(far: Vector, near: Vector, n: nat): seq<Operation>
    requires 1 <= n <= UINT32_MAX
  {
    [Add(0, far)] + Adds(near, 1, n)
  }

  /** A growth that begins with an addition that is accepted. */
  lemma GrownAdds(config: Config, p: Platform, s: State, id: VectorId, v: Vector, rest: seq<Operation>)
    requires ValidConfig(config) && s == Empty(p.seeded(config.randomSeed)) && Valid(config, p, s)
    requires Accepts(config, p, s, id, v) && p.normalize(v) == Unit(v)
    ensures var r := Inserted(config, p, s, id, v);
            Valid(config, p, r) && Grown(config, p, [Add(id, v)] + rest) == Run(config, p, r, rest)
  {
    hide Valid, Run, Inserted, Insertable;
    RunAdds(config, p, s, id, v, rest);
  }

  lemma FirstStage(config: Config, p: Platform, far: Vector, near: Vector)
    requires ValidConfig(config) && StoredApart(config, p, far, near)
    ensures p.normalize(far) == Unit(far)
    ensures var s := Empty(p.seeded(config.randomSeed));
            && Valid(config, p, s) && Accepts(config, p, s, 0, far) && Insertable(config, p, s, 0, far)
            && var r := Inserted(config, p, s, 0, far); Cluster(config, p, far, near, r, 1) && Stage(config, r.graph, 1)
  {
    FirstIsCluster(config, p, far, near);
  }

  /** What growing one far vector and near ones leads to. */
  lemma FarFirstGrows(config: Config, p: Platform, far: Vector, near: Vector, n: nat)
    requires ValidConfig(config) && StoredApart(config, p, far, near) && 1 <= n <= UINT32_MAX
    ensures var (c, s) := Grown(config, p, FarFirst(far, near, n));
            c == config && Cluster(config, p, far, near, s, n) && Stage(config, s.graph, n)
  {
    hide Valid, Run, Grown, Inserted, StoredApart, Stage, Cluster, Adds, Accepts, Insertable, ValidConfig;
    FirstStage(config, p, far, near);
    GrownFrom(config, p, far, near, Empty(p.seeded(config.randomSeed)), 0, n);
  }

  lemma GrownFrom(config: Config, p: Platform, far: Vector, near: Vector, start: State, id: VectorId, n: nat)
    requires ValidConfig(config) && StoredApart(config, p, far, near) && p.normalize(far) == Unit(far)
    requires 1 <= n <= UINT32_MAX && start == Empty(p.seeded(config.randomSeed)) && Valid(config, p, start)
    requires Accepts(config, p, start, id, far)
    requires var r := Inserted(config, p, start, id, far);
             Cluster(config, p, far, near, r, 1) && Stage(config, r.graph, 1)
    ensures var (c, s) := Grown(config, p, [Add(id, far)] + Adds(near, 1, n));
            c == config && Cluster(config, p, far, near, s, n) && Stage(config, s.graph, n)
  {
    hide Valid, Run, Grown, Inserted, StoredApart, Stage, Adds, ValidConfig;
    GrownAdds(config, p, start, id, far, Adds(near, 1, n));
    AddsReachStage(config, p, far, near, Inserted(config, p, start, id, far), 1, n);
  }

  // ---------- What queries get ----------

  /** From whatever node layer 0 is entered, node 0 or node 1 is missed. */
  lemma OneIsMissed(g: Graph, entry: nat)
    requires Parted(g) && |g| > 1 && entry < |g| && Tombstones(g) == {} && ClosedLinks(Layer(g, 0))
    ensures Answerable(Layer(g, 0), Eligible(g, true), entry) != Eligible(g, true)
  {
    var side: set<nat> :| Divided(g, side) && 0 in side && 1 !in side;
    ReachesOwnSide(g, side, entry);
    assert 0 !in Tombstones(g) && 1 !in Tombstones(g);
    var missed := if entry in side then 1 else 0;
    assert missed in Eligible(g, true) && missed !in Answerable(Layer(g, 0), Eligible(g, true), entry);
  }

  lemma PartedIsNotReached(config: Config, p: Platform, s: State, query: Vector)
    requires Valid(config, p, s) && Parted(s.graph) && |s.graph| > 1 && Tombstones(s.graph) == {}
    requires p.normalize(query).Unit?
    ensures !AllReached(config, p, s, query)
  {
    BaseIsClosed(config, p, s);
    hide Valid, Parted, BaseEntry;
    OneIsMissed(s.graph, BaseEntry(config, p, s, p.normalize(query).vector));
  }

  /** Every grown index of `n` nodes reaches all its live nodes for this query. */
  ghost predicate AlwaysReached(config: Config, p: Platform, query: Vector, n: nat)
    requires ValidConfig(config) && p.normalize(query).Unit? && n > 0
  {
    forall ops: seq<Operation> ::
      var (c, s) := Grown(config, p, ops); |s.graph| == n ==> s.graph != [] && AllReached(c, p, s, query)
  }

  lemma SmallIsReached(config: Config, p: Platform, query: Vector, ops: seq<Operation>)
    requires ValidConfig(config) && p.normalize(query).Unit?
    ensures var (c, s) := Grown(config, p, ops);
            s.graph != [] && |s.graph| <= 2 * config.maxConnections + 1 ==> AllReached(c, p, s, query)
  {
    GrownIsConnected(config, p, ops);
    var (c, s) := Grown(config, p, ops);
    hide Valid, Grown, AllReached, ConnectedWhileSmall;
    SameLimits(config, c, s);
    if s.graph != [] && |s.graph| <= 2 * config.maxConnections + 1 {
      BaseIsConnected(c, p, s);
      ConnectedIsAllReached(c, p, s, query);
    }
  }

  lemma GrownFits(config: Config, p: Platform, ops: seq<Operation>)
    requires ValidConfig(config)
    ensures |Grown(config, p, ops).1.graph| <= UINT32_MAX
  {
    hide Run;
    ValidCount(Grown(config, p, ops).0, p, Grown(config, p, ops).1);
  }

  lemma ValidCount(config: Config, p: Platform, s: State)
    requires Valid(config, p, s)
    ensures |s.graph| <= UINT32_MAX
  {
  }

  /** The sizes at which a grown index is sure to reach everything are exactly those up to 2M + 1, and those that
      no index can have. It takes only two vectors that are apart, whatever the levels drawn, the strategy and
      the width of the construction search. */
  lemma ReachedExactlyUpToLimit(config: Config, p: Platform, far: Vector, near: Vector, query: Vector, n: nat)
    requires ValidConfig(config) && StoredApart(config, p, far, near) && p.normalize(query).Unit? && n > 0
    ensures AlwaysReached(config, p, query, n) <==> n <= 2 * config.maxConnections + 1 || n > UINT32_MAX
  {
    if n <= 2 * config.maxConnections + 1 || n > UINT32_MAX {
      hide Valid, Grown, AllReached;
      forall ops: seq<Operation>
        ensures var (c, s) := Grown(config, p, ops); |s.graph| == n ==> s.graph != [] && AllReached(c, p, s, query)
      {
        SmallIsReached(config, p, query, ops);
        GrownFits(config, p, ops);
      }
    } else {
      LargeIsNot(config, p, far, near, query, n);
    }
  }

  lemma LargeIsNot(config: Config, p: Platform, far: Vector, near: Vector, query: Vector, n: nat)
    requires ValidConfig(config) && StoredApart(config, p, far, near) && p.normalize(query).Unit?
    requires 2 * config.maxConnections + 2 <= n <= UINT32_MAX
    ensures !AlwaysReached(config, p, query, n)
  {
    hide Valid, Grown, AllReached, FarFirst, Cluster, StoredApart, Parted;
    FarFirstGrows(config, p, far, near, n);
    var (c, s) := Grown(config, p, FarFirst(far, near, n));
    ClusterIsMutual(config, p, far, near, s, n);
    PartedIsNotReached(config, p, s, query);
  }

  // ---------- Only one answer ----------

  /** The next `n` levels that the generator draws are 0. */
  ghost predicate LowLevels(p: Platform, random: Rng, n: nat)
    decreases n
  {
    n > 0 ==> p.drawLevel(random) == 0 && LowLevels(p, p.advance(random), n - 1)
  }

  /** The entry point is node 0, on layer 0. */
  ghost predicate EntersAtFirst(s: State) {
    s.graph != [] && s.entryPoint == 0 && s.maxLevel == 0
  }

  lemma InsertedEntersAtFirst(config: Config, p: Platform, s: State, id: VectorId, v: Vector)
    requires Insertable(config, p, s, id, v) && p.drawLevel(s.random) == 0 && (s.graph == [] || EntersAtFirst(s))
    ensures var r := Inserted(config, p, s, id, v); EntersAtFirst(r) && r.random == p.advance(s.random)
  {
    InsertedIsLonger(config, p, s, id, v);
  }

  lemma {:induction false} AddsEnterAtFirst(config: Config, p: Platform, s: State, v: Vector, k: nat, end: nat)
    requires Valid(config, p, s) && k <= end <= UINT32_MAX && Numbered(s, k) && EntersAtFirst(s)
    requires p.normalize(v) == Unit(v) && VectorOk(config, p, v) && LowLevels(p, s.random, end - k)
    ensures EntersAtFirst(Run(config, p, s, Adds(v, k, end)).1)
    decreases end - k
  {
    hide Valid, Run, Inserted, Insertable, Numbered, EntersAtFirst;
    if k == end {
      AddsNothing(config, p, s, v, k);
    } else {
      NextIsAccepted(config, p, s, v, k);
      RunAdds(config, p, s, k, v, Adds(v, k + 1, end));
      InsertedEntersAtFirst(config, p, s, k, v);
      AddsEnterAtFirst(config, p, Inserted(config, p, s, k, v), v, k + 1, end);
    }
  }

  lemma FarFirstEntersAtFirst(config: Config, p: Platform, far: Vector, near: Vector, n: nat)
    requires ValidConfig(config) && StoredApart(config, p, far, near) && 1 <= n <= UINT32_MAX
    requires LowLevels(p, p.seeded(config.randomSeed), n)
    ensures EntersAtFirst(Grown(config, p, FarFirst(far, near, n)).1)
  {
    hide Valid, Run, Grown, Inserted, Insertable, Accepts, Cluster, Stage, StoredApart, LowLevels, EntersAtFirst,
         ValidConfig;
    FirstStage(config, p, far, near);
    GrownEntersAtFirst(config, p, far, near, Empty(p.seeded(config.randomSeed)), 0, n);
  }

  lemma GrownEntersAtFirst(config: Config, p: Platform, far: Vector, near: Vector, start: State, id: VectorId, n: nat)
    requires ValidConfig(config) && StoredApart(config, p, far, near) && p.normalize(far) == Unit(far)
    requires 1 <= n <= UINT32_MAX && start == Empty(p.seeded(config.randomSeed)) && Valid(config, p, start)
    requires Accepts(config, p, start, id, far) && Cluster(config, p, far, near, Inserted(config, p, start, id, far), 1)
    requires LowLevels(p, start.random, n)
    ensures EntersAtFirst(Grown(config, p, [Add(id, far)] + Adds(near, 1, n)).1)
  {
    hide Valid, Run, Grown, Inserted, Insertable, Cluster, StoredApart, Adds, Numbered, EntersAtFirst, ValidConfig;
    var r := Inserted(config, p, start, id, far);
    InsertedEntersAtFirst(config, p, start, id, far);
    ClusterIsNumbered(config, p, far, near, r, 1);
    GrownAdds(config, p, start, id, far, Adds(near, 1, n));
    AddsEnterAtFirst(config, p, r, near, 1, n);
  }

  lemma OnlyItself(g: Graph)
    requires |g| > 0 && Tombstones(g) == {} && forall b: nat :: !Edge(g, 0, 0, b)
    ensures Answerable(Layer(g, 0), Eligible(g, true), 0) == {0}
  {
    forall w | w in Layer(g, 0)[0] ensures false {
      assert Edge(g, 0, 0, w);
    }
    ClosureContainsReachable(Layer(g, 0), 0, {0});
    ReachesItself(Layer(g, 0), 0);
    assert 0 !in Tombstones(g);
  }

  lemma OnlyChosen(config: Config, p: Platform, s: State, q: Vector, k: nat, ef: nat)
    requires Valid(config, p, s) && s.graph != [] && k > 0 && ef > 0 && Reached(config, p, s, q) == {0}
    ensures Chosen(config, p, s, q, k, ef) == [0]
  {
    hide Valid, Reached, Chosen, Ordered;
    ChosenFacts(config, p, s, q, k, ef);
  }

  lemma AloneFacts(config: Config, p: Platform, s: State, q: Vector)
    requires Valid(config, p, s) && EntersAtFirst(s) && s.deletedCount == 0
    requires forall b: nat :: !Edge(s.graph, 0, 0, b)
    ensures |s.vectors| == |s.ids| == |s.graph| && Reached(config, p, s, q) == {0}
  {
    OnlyItself(s.graph);
  }

  /** An index that is entered at a node without links on layer 0 answers every query with that node's vector. */
  lemma OnlyFirstIsFound(config: Config, p: Platform, s: State, query: Vector, k: nat, ef: nat)
    requires Queried(config, p, s, query, k, ef) && EntersAtFirst(s) && s.deletedCount == 0
    requires forall b: nat :: !Edge(s.graph, 0, 0, b)
    ensures |s.vectors| == |s.ids| > 0
    ensures Answer(config, p, s, query, k, ef)
            == Found([SearchResult(s.ids[0], p.similarity(p.normalize(query).vector, s.vectors[0]))])
  {
    hide Valid, Answer, Reached, Chosen, Queried, EntersAtFirst, DistinctIds, Edge;
    QueriedIsPositive(config, p, s, query, k, ef);
    var q := p.normalize(query).vector;
    AloneFacts(config, p, s, q);
    OnlyChosen(config, p, s, q, k, ef);
    AnswerShowsChosen(config, p, s, query, k, ef);
  }

  lemma QueriedIsPositive(config: Config, p: Platform, s: State, query: Vector, k: nat, ef: nat)
    requires Queried(config, p, s, query, k, ef)
    ensures Valid(config, p, s) && s.graph != [] && k > 0 && ef > 0 && p.normalize(query).Unit?
  {
  }

  /** With 2M + 2 vectors, added while the generator draws level 0, every query is answered with the far one. */
  lemma OneMoreIsCutOff(config: Config, p: Platform, far: Vector, near: Vector, query: Vector, k: nat, ef: nat)
    requires ValidConfig(config) && StoredApart(config, p, far, near) && 2 * config.maxConnections + 2 <= UINT32_MAX
    requires LowLevels(p, p.seeded(config.randomSeed), 2 * config.maxConnections + 2)
    ensures var (c, s) := Grown(config, p, FarFirst(far, near, 2 * config.maxConnections + 2));
            && c == config && |s.ids| == 2 * config.maxConnections + 2 && s.deletedCount == 0
            && (Queried(c, p, s, query, k, ef) ==>
                  Answer(c, p, s, query, k, ef)
                  == Found([SearchResult(0, p.similarity(p.normalize(query).vector, far))]))
  {
    hide Valid, Grown, FarFirst, Answer, Queried, EntersAtFirst, Parted, LowLevels, StoredApart;
    FarFirstGrows(config, p, far, near, 2 * config.maxConnections + 2);
    FarFirstEntersAtFirst(config, p, far, near, 2 * config.maxConnections + 2);
    var (c, s) := Grown(config, p, FarFirst(far, near, 2 * config.maxConnections + 2));
    if Queried(c, p, s, query, k, ef) {
      OnlyFirstIsFound(config, p, s, query, k, ef);
    }
  }

  // ---------- Six vectors ----------

  const SIX: Config := Config(1, 2, 5, 1, 0, Heuristic)

  lemma SixAreApart()
    ensures StoredApart(SIX, PLAIN, [0], [1])
    ensures LowLevels(PLAIN, PLAIN.seeded(SIX.randomSeed), 6)
  {
    PlainLevels(Rng([]), 6);
  }

  lemma {:induction false} PlainLevels(random: Rng, n: nat)
    ensures LowLevels(PLAIN, random, n)
  {
    if n > 0 { PlainLevels(random, n - 1); }
  }

  /** With M = 2, six vectors are enough: asked for all six of them, the index finds one, and not the best one. */
  lemma SixVectors()
    ensures var (c, s) := Grown(SIX, PLAIN, FarFirst([0], [1], 6));
            && Queried(c, PLAIN, s, [1], 6, 6) && |Eligible(s.graph, true)| == 6
            && Answer(c, PLAIN, s, [1], 6, 6) == Found([SearchResult(0, 0)])
  {
    SixAreApart();
    hide Valid, Grown, FarFirst, Answer, Eligible, StoredApart;
    OneMoreIsCutOff(SIX, PLAIN, [0], [1], [1], 6, 6);
    var (c, s) := Grown(SIX, PLAIN, FarFirst([0], [1], 6));
    ValidLengths(c, PLAIN, s);
    LiveCount(c, PLAIN, s);
  }
}
