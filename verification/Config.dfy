/** Index configuration, and the parts of the platform the indexes treat as black boxes. */
module Configuration {
  import opened Ranking

  /** A float component, as its 32-bit pattern. */
  type Word = x: int | 0 <= x < 0x1_0000_0000
  type Vector = seq<Word>

  /** The engine state of the level generator, as the words it prints. */
  datatype Rng = Rng(words: seq<nat>)

  datatype Selection = Simple | Heuristic

  /** Numeric kernels and the pseudo-random engine. `normalize` rejects non-finite and zero input. */
  datatype Platform = Platform(
    similarity: (Vector, Vector) -> int,
    normalize: Vector -> Normalized,
    seeded: nat -> Rng,
    drawLevel: Rng -> nat,
    advance: Rng -> Rng,
    unitNorm: Vector -> bool)

  datatype Normalized = Unit(vector: Vector) | Rejected

  datatype Config = Config(
    dimension: nat,
    maxConnections: nat,
    efConstruction: nat,
    efSearch: nat,
    randomSeed: nat,
    selection: Selection)

  const MAXIMUM_GENERATED_LEVEL: nat := 63
  const UINT32_MAX: nat := 0xFFFF_FFFF
  const UINT64_MAX: nat := 0xFFFF_FFFF_FFFF_FFFF

  /** `validate_config`, for parameters that are 64-bit unsigned integers. */
  predicate ValidConfig(c: Config) {
    && 0 < c.dimension <= UINT64_MAX
    && 2 <= c.maxConnections <= UINT32_MAX / 2
    && c.maxConnections <= c.efConstruction <= UINT64_MAX
    && 0 < c.efSearch <= UINT64_MAX
    && c.randomSeed <= UINT64_MAX
  }

  /** What the library promises of `normalize_l2`: finite components, same length, norm near one. */
  ghost predicate LawfulPlatform(p: Platform) {
    forall v: Vector :: p.normalize(v).Unit? ==>
      |p.normalize(v).vector| == |v| && p.unitNorm(p.normalize(v).vector)
  }

  /** The dense base layer has twice the degree limit of the sparse upper layers. */
  function MaximumConnections(c: Config, level: nat): nat {
    if level == 0 then c.maxConnections * 2 else c.maxConnections
  }

  /** The search result of every stored vector for one query. */
  function ViewOf(p: Platform, ids: seq<VectorId>, vectors: seq<Vector>, query: Vector): (view: View)
    requires |ids| == |vectors|
    ensures |view| == |ids|
    ensures forall n :: 0 <= n < |ids| ==> view[n] == SearchResult(ids[n], p.similarity(query, vectors[n]))
    ensures Distinct(ids) ==> DistinctIds(view)
  {
    seq(|ids|, n requires 0 <= n < |ids| => SearchResult(ids[n], p.similarity(query, vectors[n])))
  }

  /** A platform for examples: vectors are similar when they are equal, all levels are 0. */
  const PLAIN: Platform := Platform((a: Vector, b: Vector) => if a == b then 1 else 0, v => Unit(v),
                                    _ => Rng([]), _ => 0, r => r, _ => true)
}
