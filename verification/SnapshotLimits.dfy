/** Loaded indexes in use, and two indexes that show where the format's promises end: one that is saved but
    cannot be loaded, and an accepted file with a one-way link. */
module SnapshotLimits {
  import opened Configuration
  import opened GraphLinks
  import opened HnswState
  import opened HnswOperations
  import opened MutualLinks
  import opened Wrappers
  import opened HnswFormat
  import opened HnswFile
  import opened HnswSnapshot
  import opened HnswVersions
  import opened Bytes

  // ---------- Working on from a file ----------

  /** Every index reached by adding, erasing and rebuilding from an accepted file of any version keeps the invariant,
      and from the first rebuild on its links are symmetric. */
  lemma RunFromFile(bytes: seq<byte>, p: Platform, t: TextCodec, before: seq<Operation>, seed: nat,
                    after: seq<Operation>)
    requires LoadAny(bytes, p, t).Some? && seed <= UINT64_MAX
    ensures var (config, s) := LoadAny(bytes, p, t).value;
            && Valid(config, p, s)
            && (var (c, r) := Run(config, p, s, before); Valid(c, p, r))
            && (Mutual(s.graph) ==> Mutual(Run(config, p, s, before).1.graph))
            && Mutual(Run(config, p, s, before + [Rebuild(seed)] + after).1.graph)
  {
    LoadAnyIsSound(bytes, p, t);
    hide LoadAny, Valid, Mutual, Run;
    var (config, s) := LoadAny(bytes, p, t).value;
    RunKeepsInvariant(config, p, s, before);
    if Mutual(s.graph) {
      RunKeepsMutual(config, p, s, before);
    }
    RunRepairs(config, p, s, before, seed, after);
  }

  /** A loaded index is as good as a grown one exactly when all its layers are symmetric. */
  lemma LoadedIsIntactIff(bytes: seq<byte>, p: Platform, t: TextCodec)
    requires LoadAny(bytes, p, t).Some?
    ensures var (config, s) := LoadAny(bytes, p, t).value;
            Intact(config, p, s) <==> forall c: nat :: Symmetric(s.graph, c)
  {
    LoadAnyIsSound(bytes, p, t);
    hide LoadAny, Valid;
  }

  // ---------- A one-way link ----------

  /** Node 0 points at node 1, which does not point back. */
  function OneWay(v: Vector, random: Rng): State {
    State([v, v], [0, 1], [Node([[1]], false), Node([[]], false)], map[0 := 0, 1 := 1], random, 0, 0, 0)
  }

  const SMALL: Config := Config(1, 2, 2, 1, 0, Simple)

  lemma OneWayIsValid(v: Vector, random: Rng, p: Platform)
    requires |v| == 1 && p.unitNorm(v)
    ensures Valid(SMALL, p, OneWay(v, random)) && !Mutual(OneWay(v, random).graph)
  {
    var g := OneWay(v, random).graph;
    assert forall n, c: nat :: Neighbours(g, n, c) == if n == 0 && c == 0 then [1] else [];
    forall c: nat ensures LayerOk(SMALL, g, c) {
      forall n: nat ensures GoodList(g, c, n) && |Neighbours(g, n, c)| <= MaximumConnections(SMALL, c) {
      }
    }
    assert Tombstones(g) == {};
    assert Edge(g, 0, 0, 1) && !Edge(g, 0, 1, 0);
    assert !Symmetric(g, 0);
  }

  /** The loader accepts a file whose graph has a one-way link. */
  lemma OneWayIsAccepted(v: Vector, random: Rng, p: Platform, t: TextCodec)
    requires |v| == 1 && p.unitNorm(v) && LawfulText(t) && 0 < |t.show(random)| <= MAXIMUM_TEXT
    ensures var s := OneWay(v, random);
            && LevelCounts(s.graph) && Save(SMALL, s, t).Some?
            && Load(Save(SMALL, s, t).value, p, t) == Loaded(SMALL, s)
            && LoadAny(Save(SMALL, s, t).value, p, t) == Some((SMALL, s))
            && !Mutual(s.graph)
  {
    var s := OneWay(v, random);
    OneWayIsValid(v, random, p);
    ValidIsShaped(SMALL, p, s);
    ValidIsWithinLimits(SMALL, p, s);
    PayloadWithinBounds(SMALL, p, s, t.show(random));
    SmallSizesFit(HeaderFor(SMALL, s, |PayloadOf(s, t.show(random))|));
    hide Valid, Load, LoadAny, PayloadOf, FileOf, WithinLimits, SizesFit, Mutual, MaximumPayload, MinimumPayload;
    SaveThenLoad(SMALL, p, s, t);
    CurrentLoads(Save(SMALL, s, t).value, p, t);
  }

  lemma SmallSizesFit(h: Header)
    requires h.count == 2 && h.maxConnections == 2 && h.dimension == 1 && h.payloadBytes <= MaximumPayload(h)
    ensures SizesFit(h) && h.payloadBytes <= UINT64_MAX
  {
  }

  // ---------- Saved, but not loadable ----------

  const LARGE_M: nat := UINT32_MAX / 2
  const MANY: nat := 20_000_000
  const LARGE: Config := Config(1, LARGE_M, LARGE_M, 1, 0, Simple)

  /** Whatever its links, an index of so many nodes fits the payload's 64 bits. */
  lemma ManyNodesFit(p: Platform, s: State, text: seq<byte>)
    requires Valid(LARGE, p, s) && |s.ids| == MANY && |text| <= MAXIMUM_TEXT
    ensures LevelCounts(s.graph) && |PayloadOf(s, text)| <= UINT64_MAX
  {
    var nodes := LevelsOf(s.graph);
    LinksFit(LARGE, s.graph, s.maxLevel);
    forall i, c | 0 <= i < |nodes| && 0 <= c < |nodes[i]| ensures 4 + |nodes[i][c]| * 4 <= 4 + MANY * 4 {
      assert NodeFits(nodes[i], 0 + i, |s.graph|, LARGE, s.maxLevel);
      assert ListFits(nodes[i][c], i, |s.graph|, MaximumConnections(LARGE, 0 + c));
    }
    ValidIsShaped(LARGE, p, s);
    hide GraphOk, IdsOk, EntryOk, Tombstones, PayloadOf, NodesFit, AllPresent, EncodeNodes;
    NodesSize(nodes, 4 + MANY * 4, MAXIMUM_LEVEL + 1);
    PayloadSize(LARGE, s, text);
  }

  /** Twenty million additions with the largest M: `save` writes the file, but the loader's worst-case bound
      overflows and it rejects what was just written. */
  lemma SavedButNotLoadable(v: Vector, p: Platform, t: TextCodec)
    requires |v| == 1 && p.normalize(v) == Unit(v) && p.unitNorm(v)
    requires LawfulText(t) && 0 < |t.show(Grown(LARGE, p, Adds(v, 0, MANY)).1.random)| <= MAXIMUM_TEXT
    ensures var (config, s) := Grown(LARGE, p, Adds(v, 0, MANY));
            && LevelCounts(s.graph) && |s.ids| == MANY
            && Save(config, s, t).Some? && LoadAny(Save(config, s, t).value, p, t) == None
  {
    hide Valid, Load, LoadAny, PayloadOf, FileOf, WithinLimits, SizesFit, Run;
    var start := Empty(p.seeded(0));
    EmptyIsValid(LARGE, p, p.seeded(0));
    AddsGrow(LARGE, p, start, v, 0, MANY);
    var (config, s) := Grown(LARGE, p, Adds(v, 0, MANY));
    assert config == LARGE && |s.ids| == MANY;
    ManyNodesFit(p, s, t.show(s.random));
    ValidIsWithinLimits(LARGE, p, s);
    WorstCaseTooLarge(HeaderFor(LARGE, s, |PayloadOf(s, t.show(s.random))|));
    SaveThenLoad(LARGE, p, s, t);
    SavedIsCurrent(LARGE, p, s, t);
  }

  lemma WorstCaseTooLarge(h: Header)
    requires h.count == MANY && h.maxConnections == LARGE_M
    ensures !SizesFit(h)
  {
    assert MANY * LargestNode(LARGE_M) > UINT64_MAX;
  }

  // ---------- One such index, with nothing left open ----------

  /** A spelling of word lists: 0 ends a word, 1 counts it up, 2 ends the list. */
  function Spell(words: seq<nat>): (bytes: seq<byte>)
    ensures bytes != []
    decreases |words|, if words == [] then 0 else words[0]
  {
    if words == [] then [2]
    else if words[0] == 0 then [0] + Spell(words[1..])
    else [1] + Spell([words[0] - 1] + words[1..])
  }

  /** What a byte in front makes of the words that follow. */
  function Extended(first: byte, words: Option<seq<nat>>): Option<seq<nat>> {
    if words.None? then None
    else if first == 0 then Some([0] + words.value)
    else if first == 1 && words.value != [] then Some([words.value[0] + 1] + words.value[1..])
    else None
  }

  function Unspell(bytes: seq<byte>): Option<seq<nat>> {
    if bytes == [] then None
    else if bytes == [2] then Some([])
    else Extended(bytes[0], Unspell(bytes[1..]))
  }

  lemma UnspellFirst(first: byte, rest: seq<byte>)
    ensures rest != [] ==> Unspell([first] + rest) == Extended(first, Unspell(rest))
    ensures Unspell([2]) == Some([])
  {
    assert ([first] + rest)[1..] == rest;
  }

  lemma {:induction false} UnspellSpell(words: seq<nat>)
    ensures Unspell(Spell(words)) == Some(words)
    decreases |words|, if words == [] then 0 else words[0]
  {
    hide Unspell;
    if words == [] {
      UnspellFirst(0, []);
    } else if words[0] == 0 {
      UnspellSpell(words[1..]);
      UnspellFirst(0, Spell(words[1..]));
      assert words == [0] + words[1..];
    } else {
      var fewer := [words[0] - 1] + words[1..];
      UnspellSpell(fewer);
      UnspellFirst(1, Spell(fewer));
      assert [fewer[0] + 1] + fewer[1..] == words;
    }
  }

  const PLAIN_TEXT: TextCodec := TextCodec(
    (r: Rng) => Spell(r.words),
    (bytes: seq<byte>) => if Unspell(bytes).Some? then Some(Rng(Unspell(bytes).value)) else None)

  lemma PlainTextIsLawful()
    ensures LawfulText(PLAIN_TEXT)
  {
    forall r: Rng ensures PLAIN_TEXT.parse(PLAIN_TEXT.show(r)) == Some(r) {
      UnspellSpell(r.words);
    }
  }

  /** The generator of the plain platform never leaves its initial state. */
  lemma {:induction false} AddsKeepGenerator(config: Config, s: State, v: Vector, from: nat, end: nat)
    requires Valid(config, PLAIN, s) && from <= end <= UINT32_MAX && Numbered(s, from) && |v| == config.dimension
    ensures Run(config, PLAIN, s, Adds(v, from, end)).1.random == s.random
    decreases end - from
  {
    hide Valid, Inserted, Numbered, Run;
    if from == end {
      AddsNothing(config, PLAIN, s, v, from);
    } else {
      NextIsAccepted(config, PLAIN, s, v, from);
      RunAdds(config, PLAIN, s, from, v, Adds(v, from + 1, end));
      InsertedFields(config, PLAIN, s, from, v);
      AddsKeepGenerator(config, Inserted(config, PLAIN, s, from, v), v, from + 1, end);
    }
  }

  /** A platform, a codec and a vector for which all this happens. */
  lemma PlainIndexIsLost()
    ensures var (config, s) := Grown(LARGE, PLAIN, Adds([0], 0, MANY));
            && LevelCounts(s.graph) && |s.ids| == MANY
            && Save(config, s, PLAIN_TEXT).Some?
            && LoadAny(Save(config, s, PLAIN_TEXT).value, PLAIN, PLAIN_TEXT) == None
  {
    hide Valid, LoadAny, Run;
    var start := Empty(PLAIN.seeded(0));
    EmptyIsValid(LARGE, PLAIN, PLAIN.seeded(0));
    AddsKeepGenerator(LARGE, start, [0], 0, MANY);
    PlainTextIsLawful();
    assert Grown(LARGE, PLAIN, Adds([0], 0, MANY)).1.random == Rng([]);
    assert PLAIN_TEXT.show(Rng([])) == [2];
    SavedButNotLoadable([0], PLAIN, PLAIN_TEXT);
  }
}
