/** Saving and loading an HNSW index: which states come back, which files are accepted, and that an
    accepted file is the only one its state and generator text can have. */
module HnswSnapshot {
  import opened Wrappers
  import opened Bytes
  import opened Checksum
  import opened Encoding
  import opened Configuration
  import opened GraphLinks
  import opened HnswState
  import opened HnswOperations
  import opened HnswFormat
  import opened HnswFile
  import opened StoredRows

  // ---------- States as file contents ----------

  function LevelsOf(g: Graph): (r: seq<Levels>)
    ensures |r| == |g| && forall n :: 0 <= n < |g| ==> r[n] == g[n].levels
  {
    seq(|g|, n requires 0 <= n < |g| => g[n].levels)
  }

  function FlagsOf(g: Graph): (r: seq<nat>)
    ensures |r| == |g| && forall n :: 0 <= n < |g| ==> r[n] == if g[n].deleted then 1 else 0
  {
    seq(|g|, n requires 0 <= n < |g| => if g[n].deleted then 1 else 0)
  }

  function PartsOf(s: State, text: seq<byte>): Parts {
    Parts(s.ids, s.vectors, LevelsOf(s.graph), FlagsOf(s.graph), text)
  }

  function HeaderFor(config: Config, s: State, payloadBytes: nat): Header {
    Header(CURRENT_VERSION, config.dimension, |s.ids|, config.maxConnections, config.efConstruction, config.efSearch,
           config.randomSeed, if config.selection.Simple? then 0 else 1,
           if |s.ids| == 0 then 0 else s.maxLevel, if |s.ids| == 0 then EMPTY_ENTRY else s.entryPoint, payloadBytes)
  }

  /** A file with a given header and checksum. */
  function FileWith(h: Header, checksum: nat, payload: seq<byte>): seq<byte> {
    HeaderBytes(h) + LittleEndian(checksum, 8) + payload
  }

  /** A whole file: header, checksum, payload. */
  function Stored(h: Header, payload: seq<byte>): seq<byte> {
    FileWith(h, Hash(FNV_OFFSET, HeaderBytes(h) + payload), payload)
  }

  function PayloadOf(s: State, text: seq<byte>): seq<byte>
    requires LevelCounts(s.graph)
  {
    EncodeParts(PartsOf(s, text))
  }

  function FileOf(config: Config, s: State, text: seq<byte>): seq<byte>
    requires LevelCounts(s.graph)
  {
    Stored(HeaderFor(config, s, |PayloadOf(s, text)|), PayloadOf(s, text))
  }

  /** What `save` checks of the index in memory before it measures the payload. */
  predicate WithinLimits(config: Config, s: State) {
    && |s.ids| == |s.graph| <= UINT32_MAX && config.maxConnections <= UINT32_MAX / 2
    && Deleted(FlagsOf(s.graph)) == s.deletedCount
  }

  /** `save`: it refuses an index it finds inconsistent, a payload whose length does not fit 64 bits and a
      generator text the format cannot hold. */
  function Save(config: Config, s: State, t: TextCodec): Option<seq<byte>>
    requires LevelCounts(s.graph)
  {
    var text := t.show(s.random);
    if !WithinLimits(config, s) || text == [] || |text| > MAXIMUM_TEXT || |PayloadOf(s, text)| > UINT64_MAX then None
    else Some(FileOf(config, s, text))
  }

  // ---------- Adjacency lists that fit the format ----------

  lemma LinksFit(config: Config, g: Graph, maxLevel: nat)
    requires GraphOk(config, g)
    requires forall n :: 0 <= n < |g| ==> |g[n].levels| <= maxLevel + 1
    ensures NodesFit(LevelsOf(g), 0, |g|, config, maxLevel) && AllPresent(LevelsOf(g))
  {
    var nodes := LevelsOf(g);
    forall n, c | 0 <= n < |g| && 0 <= c < |nodes[n]|
      ensures ListFits(nodes[n][c], n, |g|, MaximumConnections(config, c)) && AllOnLayer(g, c, nodes[n][c])
    {
      assert LayerOk(config, g, c) && GoodList(g, c, n);
      assert Neighbours(g, n, c) == nodes[n][c];
      assert forall i :: 0 <= i < |nodes[n][c]| ==> OnLayer(g, nodes[n][c][i], c) && nodes[n][c][i] in nodes[n][c];
      DegreeBelowCount(nodes[n][c], n, |g|);
    }
    forall n | 0 <= n < |nodes| ensures NodeFits(nodes[n], 0 + n, |g|, config, maxLevel) {
      assert ListsFit(nodes[n], n, |g|, config, 0);
    }
  }

  lemma FittingLinks(config: Config, nodes: seq<Levels>, flags: seq<nat>, maxLevel: nat)
    requires |nodes| == |flags| && NodesFit(nodes, 0, |nodes|, config, maxLevel) && AllPresent(nodes)
    ensures GraphOk(config, GraphOf(nodes, flags))
    ensures forall n :: 0 <= n < |nodes| ==> |nodes[n]| <= maxLevel + 1
  {
  }

  // ---------- Tombstones ----------

  lemma {:induction false} DeletedJoin(a: seq<nat>, b: seq<nat>)
    ensures Deleted(a + b) == Deleted(a) + Deleted(b)
    decreases |a|
  {
    if a == [] {
      assert a + b == b;
    } else {
      DeletedJoin(a[1..], b);
      assert (a + b)[1..] == a[1..] + b;
    }
  }

  lemma OneMoreNode(g: Graph, node: Node)
    ensures Tombstones(g + [node]) == if node.deleted then Tombstones(g) + {|g|} else Tombstones(g)
    ensures FlagsOf(g + [node]) == FlagsOf(g) + [if node.deleted then 1 else 0]
  {
  }

  lemma {:induction false} DeletedCounts(g: Graph)
    ensures Deleted(FlagsOf(g)) == |Tombstones(g)|
    decreases |g|
  {
    if g == [] {
      assert Tombstones(g) == {};
    } else {
      var init, last := g[..|g| - 1], g[|g| - 1];
      DeletedCounts(init);
      OneMoreNode(init, last);
      DeletedJoin(FlagsOf(init), [if last.deleted then 1 else 0]);
      assert g == init + [last];
    }
  }

  // ---------- Sizes ----------

  lemma {:induction false} ListsSize(lists: Levels, bound: nat)
    requires forall i :: 0 <= i < |lists| ==> 4 + |lists[i]| * 4 <= bound
    ensures |lists| * 4 <= |EncodeLists(lists)| <= |lists| * bound
  {
    hide LittleEndian, EncodeInts;
    if lists != [] {
      ListsSize(lists[1..], bound);
      assert |lists| * bound == bound + (|lists| - 1) * bound;
    }
  }

  lemma ProductGrows(a: nat, b: nat, c: nat)
    requires a <= b
    ensures a * c <= b * c
  {
  }

  /** Every node takes at least eight bytes, and at most what `levels` lists could take. */
  lemma {:induction false} NodesSize(nodes: seq<Levels>, bound: nat, levels: nat)
    requires forall i :: 0 <= i < |nodes| ==> 0 < |nodes[i]| <= levels
    requires forall i, c :: 0 <= i < |nodes| && 0 <= c < |nodes[i]| ==> 4 + |nodes[i][c]| * 4 <= bound
    ensures |nodes| * 8 <= |EncodeNodes(nodes)| <= |nodes| * (4 + levels * bound)
  {
    hide LittleEndian, EncodeLists;
    if nodes != [] {
      ListsSize(nodes[0], bound);
      ProductGrows(|nodes[0]|, levels, bound);
      NodesSize(nodes[1..], bound, levels);
      var most := 4 + levels * bound;
      assert |nodes| * most == most + (|nodes| - 1) * most;
    }
  }

  /** Rows, IDs and nodes run in parallel; one row per ID and at least one layer per node. */
  ghost predicate Shaped(config: Config, s: State) {
    && |s.vectors| == |s.ids| && LevelCounts(s.graph)
    && forall n :: 0 <= n < |s.vectors| ==> |s.vectors[n]| == config.dimension
  }

  lemma ValidIsShaped(config: Config, p: Platform, s: State)
    requires Valid(config, p, s)
    ensures Shaped(config, s)
  {
  }

  lemma PayloadSize(config: Config, s: State, text: seq<byte>)
    requires Shaped(config, s)
    ensures |PayloadOf(s, text)|
            == |s.ids| * 8 + |s.ids| * config.dimension * 4 + |EncodeNodes(LevelsOf(s.graph))| + |s.graph| + 12 + |text|
  {
    RowsSize(s.vectors, config.dimension);
  }

  lemma NodesSizeOfState(config: Config, p: Platform, s: State)
    requires Valid(config, p, s)
    ensures |s.ids| * 8 <= |EncodeNodes(LevelsOf(s.graph))| <= |s.ids| * LargestNode(config.maxConnections)
  {
    hide EncodeNodes, IdsOk, EntryOk, Tombstones;
    var nodes := LevelsOf(s.graph);
    var bound := 4 + config.maxConnections * 2 * 4;
    forall i, c | 0 <= i < |nodes| && 0 <= c < |nodes[i]| ensures 4 + |nodes[i][c]| * 4 <= bound {
      ListWithinBase(config, s.graph, c, i);
    }
    NodesSize(nodes, bound, MAXIMUM_LEVEL + 1);
  }

  lemma ListWithinBase(config: Config, g: Graph, c: nat, n: nat)
    requires GraphOk(config, g) && OnLayer(g, n, c)
    ensures |g[n].levels[c]| <= config.maxConnections * 2
  {
    assert LayerOk(config, g, c);
    assert Neighbours(g, n, c) == g[n].levels[c];
  }

  /** What is saved is within the loader's smallest and largest payload for its header. */
  lemma PayloadWithinBounds(config: Config, p: Platform, s: State, text: seq<byte>)
    requires Valid(config, p, s) && 0 < |text| <= MAXIMUM_TEXT
    ensures var h := HeaderFor(config, s, |PayloadOf(s, text)|);
            MinimumPayload(h) <= h.payloadBytes <= MaximumPayload(h)
  {
    hide GraphOk, IdsOk, EntryOk, Tombstones, PayloadOf, EncodeNodes, MinimumPayload, MaximumPayload, LargestNode;
    ValidIsShaped(config, p, s);
    PayloadSize(config, s, text);
    NodesSizeOfState(config, p, s);
    BoundsAddUp(HeaderFor(config, s, |PayloadOf(s, text)|), |EncodeNodes(LevelsOf(s.graph))|, |text|);
  }

  lemma BoundsAddUp(h: Header, nodeBytes: nat, textBytes: nat)
    requires h.count * 8 <= nodeBytes
    requires nodeBytes <= h.count * LargestNode(h.maxConnections)
    requires 0 < textBytes <= MAXIMUM_TEXT
    requires h.payloadBytes == h.count * 8 + h.count * h.dimension * 4 + nodeBytes + h.count + 12 + textBytes
    ensures MinimumPayload(h) <= h.payloadBytes <= MaximumPayload(h)
  {
    hide LargestNode;
  }

  // ---------- What was saved comes back ----------

  /** The loader computes its worst case, and the file length, in 64 bits. */
  predicate SizesFit(h: Header) {
    MaximumPayload(h) <= UINT64_MAX && HEADER_SIZE + h.payloadBytes <= UINT64_MAX
  }

  lemma HashFits(x: seq<byte>)
    ensures Hash(FNV_OFFSET, x) <= UINT64_MAX
  {
  }

  lemma FileWithSlices(h: Header, checksum: nat, payload: seq<byte>)
    requires checksum <= UINT64_MAX
    ensures var bytes := FileWith(h, checksum, payload);
            && |bytes| == HEADER_SIZE + |payload|
            && bytes[..104] == HeaderBytes(h) && bytes[HEADER_SIZE..] == payload && StoredChecksum(bytes) == checksum
            && Covered(bytes) == HeaderBytes(h) + payload
  {
    hide HeaderBytes, LittleEndian, Value;
    var bytes := FileWith(h, checksum, payload);
    assert bytes[104..112] == LittleEndian(checksum, 8);
    Powers();
    ValueOfLittleEndian(checksum, 8);
  }

  lemma HeaderIsBack(h: Header, checksum: nat, payload: seq<byte>)
    requires FieldsFit(Fields(h), Widths()) && 1 <= h.version <= CURRENT_VERSION
    ensures ReadHeader(FileWith(h, checksum, payload)) == Some(h)
  {
    hide HeaderBytes, ReadHeader, FieldsFit, Fields;
    ReadHeaderComplete(h, LittleEndian(checksum, 8) + payload);
    assert FileWith(h, checksum, payload) == HeaderBytes(h) + (LittleEndian(checksum, 8) + payload);
  }

  lemma HeaderIsRead(config: Config, p: Platform, s: State, n: nat, payload: seq<byte>)
    requires Valid(config, p, s) && n <= UINT64_MAX
    ensures var h := HeaderFor(config, s, n);
            && ReadHeader(Stored(h, payload)) == Some(h)
            && |Stored(h, payload)| == HEADER_SIZE + |payload|
            && Covered(Stored(h, payload)) == HeaderBytes(h) + payload
            && StoredChecksum(Stored(h, payload)) == Hash(FNV_OFFSET, HeaderBytes(h) + payload)
            && Stored(h, payload)[HEADER_SIZE..] == payload
  {
    hide HeaderBytes, ReadHeader, HeaderFor, Hash, Valid, FieldsFit, Fields, Covered, StoredChecksum, FileWith;
    var h := HeaderFor(config, s, n);
    HeaderFits(config, p, s, n);
    StoredSlices(h, payload);
    HeaderIsBack(h, Hash(FNV_OFFSET, HeaderBytes(h) + payload), payload);
  }

  lemma HeaderFits(config: Config, p: Platform, s: State, n: nat)
    requires Valid(config, p, s) && n <= UINT64_MAX
    ensures FieldsFit(Fields(HeaderFor(config, s, n)), Widths()) && HeaderFor(config, s, n).version == CURRENT_VERSION
  {
    Powers();
  }

  lemma StoredSlices(h: Header, payload: seq<byte>)
    ensures var bytes := Stored(h, payload);
            && |bytes| == HEADER_SIZE + |payload|
            && Covered(bytes) == HeaderBytes(h) + payload
            && StoredChecksum(bytes) == Hash(FNV_OFFSET, HeaderBytes(h) + payload)
            && bytes[HEADER_SIZE..] == payload
  {
    hide HeaderBytes, Hash, FileWith, Covered, StoredChecksum;
    HashFits(HeaderBytes(h) + payload);
    FileWithSlices(h, Hash(FNV_OFFSET, HeaderBytes(h) + payload), payload);
  }

  lemma PartsOfStateFit(config: Config, p: Platform, s: State, text: seq<byte>)
    requires Valid(config, p, s) && 0 < |text| <= MAXIMUM_TEXT
    ensures |s.ids| <= UINT32_MAX && HeaderFor(config, s, 0).maximumLevel == s.maxLevel
    ensures PartsFit(PartsOf(s, text), |s.ids|, config, s.maxLevel, p)
  {
    IdsAreDistinct(s.ids, s.idToNode);
    LinksFit(config, s.graph, s.maxLevel);
  }

  lemma {:induction false} MaxLevelFound(nodes: seq<Levels>, m: nat)
    requires forall i :: 0 <= i < |nodes| ==> 0 < |nodes[i]| <= m + 1
    ensures MaxLevelOf(nodes) <= m
    ensures (exists i :: 0 <= i < |nodes| && |nodes[i]| == m + 1) ==> MaxLevelOf(nodes) == m
  {
    if nodes != [] {
      MaxLevelFound(nodes[1..], m);
      if i :| 0 <= i < |nodes| && |nodes[i]| == m + 1 {
        assert i > 0 ==> nodes[1..][i - 1] == nodes[i];
      }
    }
  }

  lemma ChecksPass(config: Config, p: Platform, s: State, n: nat)
    requires Valid(config, p, s)
    ensures GraphChecks(LevelsOf(s.graph), HeaderFor(config, s, n))
  {
    LinksFit(config, s.graph, s.maxLevel);
    MaxLevelFound(LevelsOf(s.graph), s.maxLevel);
    if s.graph != [] {
      assert |LevelsOf(s.graph)[s.entryPoint]| == s.maxLevel + 1;
    }
  }

  lemma StateReturns(config: Config, p: Platform, s: State, n: nat, text: seq<byte>)
    requires Valid(config, p, s)
    ensures ConfigOf(HeaderFor(config, s, n)) == config
    ensures StateOf(HeaderFor(config, s, n), PartsOf(s, text), s.random) == s
  {
    hide Deleted, IdMap, GraphOk, Tombstones;
    assert GraphOf(LevelsOf(s.graph), FlagsOf(s.graph)) == s.graph;
    DeletedCounts(s.graph);
    IdsAreDistinct(s.ids, s.idToNode);
    IdMapIsInverse(s.ids);
    InverseIsUnique(s.ids, s.idToNode, IdMap(s.ids));
  }

  /** Everything the file check looks at in the header, except the 64-bit size arithmetic, is in order. */
  lemma HeaderIsAccepted(config: Config, p: Platform, s: State, text: seq<byte>)
    requires Valid(config, p, s) && 0 < |text| <= MAXIMUM_TEXT
    ensures var h := HeaderFor(config, s, |PayloadOf(s, text)|);
            HeaderOk(h, HEADER_SIZE + h.payloadBytes) <==> SizesFit(h)
  {
    hide PayloadOf, MinimumPayload, MaximumPayload;
    PayloadWithinBounds(config, p, s, text);
  }

  lemma PayloadIsRead(config: Config, p: Platform, s: State, t: TextCodec)
    requires Valid(config, p, s) && LawfulText(t) && Save(config, s, t).Some?
    ensures var payload := PayloadOf(s, t.show(s.random));
            var h := HeaderFor(config, s, |payload|);
            |Stored(h, payload)| >= HEADER_SIZE && LoadPayload(Stored(h, payload), h, p, t) == Loaded(config, s)
  {
    hide HeaderOk, ReadHeader, ParseParts, EncodeParts, GraphChecks, StateOf, PartsFit, Hash, Stored, ConfigOf,
         StoredChecksum, Covered, LayerOk;
    var text := t.show(s.random);
    var payload := PayloadOf(s, text);
    var h := HeaderFor(config, s, |payload|);
    HeaderIsRead(config, p, s, |payload|, payload);
    PartsOfStateFit(config, p, s, text);
    ParsePartsComplete(PartsOf(s, text), |s.ids|, config, s.maxLevel, p);
    ChecksPass(config, p, s, |payload|);
    StateReturns(config, p, s, |payload|, text);
  }

  /** Loading a saved index gives back its configuration and its whole state, exactly when the loader's
      worst-case payload and the file length fit 64 bits; otherwise the loader rejects the file. */
  lemma SaveThenLoad(config: Config, p: Platform, s: State, t: TextCodec)
    requires Valid(config, p, s) && LawfulText(t) && Save(config, s, t).Some?
    ensures Load(Save(config, s, t).value, p, t)
            == if SizesFit(HeaderFor(config, s, |PayloadOf(s, t.show(s.random))|)) then Loaded(config, s) else Invalid
  {
    hide HeaderOk, ReadHeader, PayloadOf, Stored, LoadPayload, SizesFit, LayerOk;
    var text := t.show(s.random);
    var payload := PayloadOf(s, text);
    HeaderIsRead(config, p, s, |payload|, payload);
    HeaderIsAccepted(config, p, s, text);
    PayloadIsRead(config, p, s, t);
  }

  lemma ValidHasLevels(config: Config, g: Graph)
    requires GraphOk(config, g)
    ensures LevelCounts(g)
  {
  }

  /** Every index that adding, erasing and rebuilding can produce comes back from its file unchanged, on
      the same condition on sizes. */
  lemma GrownIndexComesBack(config: Config, p: Platform, ops: seq<Operation>, t: TextCodec)
    requires ValidConfig(config) && LawfulText(t)
    ensures var (c, s) := Grown(config, p, ops);
            && LevelCounts(s.graph)
            && (Save(c, s, t).Some? ==>
                  Load(Save(c, s, t).value, p, t)
                  == if SizesFit(HeaderFor(c, s, |PayloadOf(s, t.show(s.random))|)) then Loaded(c, s) else Invalid)
  {
    hide Grown, Save, Load, SizesFit, PayloadOf, GraphOk;
    var (c, s) := Grown(config, p, ops);
    ValidHasLevels(c, s.graph);
    if Save(c, s, t).Some? {
      SaveThenLoad(c, p, s, t);
    }
  }

  // ---------- What is accepted ----------

  ghost function HeaderIn(bytes: seq<byte>): Header
    requires ReadHeader(bytes).Some?
  {
    ReadHeader(bytes).value
  }

  /** The payload of a file that loads. */
  ghost function PartsIn(bytes: seq<byte>, p: Platform, t: TextCodec): (parts: Parts)
    requires Load(bytes, p, t).Loaded?
  {
    var h := ReadHeader(bytes).value;
    ParseParts(bytes[HEADER_SIZE..], h.count, ConfigOf(h), h.maximumLevel, p).value
  }

  /** What the checks on header and payload come to. */
  ghost predicate Accepted(h: Header, parts: Parts, fileBytes: nat, p: Platform) {
    && HeaderOk(h, fileBytes) && FieldsFit(Fields(h), Widths()) && h.version == CURRENT_VERSION
    && PartsFit(parts, h.count, ConfigOf(h), h.maximumLevel, p)
    && (forall i :: 0 <= i < |parts.nodes| ==> |parts.nodes[i]| > 0)
    && GraphChecks(parts.nodes, h)
  }

  lemma LoadedPayload(bytes: seq<byte>, h: Header, p: Platform, t: TextCodec)
    requires |bytes| >= HEADER_SIZE && LoadPayload(bytes, h, p, t).Loaded?
    ensures var parsed := ParseParts(bytes[HEADER_SIZE..], h.count, ConfigOf(h), h.maximumLevel, p);
            && parsed.Some?
            && PartsFit(parsed.value, h.count, ConfigOf(h), h.maximumLevel, p)
            && bytes[HEADER_SIZE..] == EncodeParts(parsed.value)
            && GraphChecks(parsed.value.nodes, h) && t.parse(parsed.value.text).Some?
            && LoadPayload(bytes, h, p, t)
               == Loaded(ConfigOf(h), StateOf(h, parsed.value, t.parse(parsed.value.text).value))
  {
    hide ParseParts, GraphChecks, EncodeParts, PartsFit, Hash, Covered, StoredChecksum, ConfigOf, StateOf;
    ParsePartsSound(bytes[HEADER_SIZE..], h.count, ConfigOf(h), h.maximumLevel, p);
    PartsAreShaped(bytes[HEADER_SIZE..], h.count, ConfigOf(h), h.maximumLevel, p);
  }

  lemma LoadedFile(bytes: seq<byte>, p: Platform, t: TextCodec)
    requires Load(bytes, p, t).Loaded?
    ensures ReadHeader(bytes).Some? && Accepted(HeaderIn(bytes), PartsIn(bytes, p, t), |bytes|, p)
    ensures bytes == Stored(HeaderIn(bytes), EncodeParts(PartsIn(bytes, p, t)))
    ensures t.parse(PartsIn(bytes, p, t).text).Some?
    ensures var r := t.parse(PartsIn(bytes, p, t).text).value;
            Load(bytes, p, t) == Loaded(ConfigOf(HeaderIn(bytes)), StateOf(HeaderIn(bytes), PartsIn(bytes, p, t), r))
  {
    hide ReadHeader, HeaderOk, LoadPayload, ParseParts, EncodeParts, PartsFit, GraphChecks, Hash, ConfigOf, StateOf,
         HeaderBytes, FieldsFit, Fields, Stored, Covered, StoredChecksum;
    var h := ReadHeader(bytes).value;
    ReadHeaderSound(bytes);
    LoadedPayload(bytes, h, p, t);
    StoredAgain(bytes, h);
    PartsAreShaped(bytes[HEADER_SIZE..], h.count, ConfigOf(h), h.maximumLevel, p);
  }

  lemma FileApart(bytes: seq<byte>, h: Header)
    requires |bytes| >= HEADER_SIZE && bytes[..104] == HeaderBytes(h)
    ensures bytes == FileWith(h, StoredChecksum(bytes), bytes[HEADER_SIZE..])
  {
    hide HeaderBytes, Value, LittleEndian;
    LittleEndianOfValue(bytes[104..112]);
    assert bytes == bytes[..104] + bytes[104..112] + bytes[HEADER_SIZE..];
  }

  lemma AllIsCovered(bytes: seq<byte>, h: Header)
    requires |bytes| >= HEADER_SIZE && bytes[..104] == HeaderBytes(h)
    ensures Covered(bytes) == HeaderBytes(h) + bytes[HEADER_SIZE..]
  {
  }

  lemma StoredAgain(bytes: seq<byte>, h: Header)
    requires |bytes| >= HEADER_SIZE && bytes[..104] == HeaderBytes(h)
    requires Hash(FNV_OFFSET, Covered(bytes)) == StoredChecksum(bytes)
    ensures bytes == Stored(h, bytes[HEADER_SIZE..])
  {
    hide HeaderBytes, Hash, FileWith, Covered, StoredChecksum;
    FileApart(bytes, h);
    AllIsCovered(bytes, h);
  }

  lemma {:induction false} MaxLevelBounds(nodes: seq<Levels>)
    requires forall i :: 0 <= i < |nodes| ==> 0 < |nodes[i]|
    ensures forall i :: 0 <= i < |nodes| ==> |nodes[i]| <= MaxLevelOf(nodes) + 1
  {
    if nodes != [] {
      MaxLevelBounds(nodes[1..]);
      assert forall i :: 0 < i < |nodes| ==> nodes[i] == nodes[1..][i - 1];
    }
  }

  lemma FieldsConfig(h: Header)
    requires FieldsOk(h) && FieldsFit(Fields(h), Widths())
    ensures ValidConfig(ConfigOf(h))
  {
    Powers();
    var f := Fields(h);
    assert f[4] < Power(Widths()[4]) && f[7] < Power(Widths()[7]);
    assert f[8] < Power(Widths()[8]) && f[9] < Power(Widths()[9]);
  }

  /** Checked contents make a state that satisfies the index invariant. */
  lemma AcceptedIsValid(h: Header, parts: Parts, fileBytes: nat, p: Platform, random: Rng)
    requires Accepted(h, parts, fileBytes, p)
    ensures Valid(ConfigOf(h), p, StateOf(h, parts, random))
  {
    hide LayerOk, AllPresent, NodesFit, FieldsFit, IdMap, Tombstones, Deleted;
    var s := StateOf(h, parts, random);
    IdMapIsInverse(parts.ids);
    FittingLinks(ConfigOf(h), parts.nodes, parts.flags, h.maximumLevel);
    DeletedCounts(s.graph);
    assert FlagsOf(s.graph) == parts.flags;
    FieldsConfig(h);
  }

  /** Header and payload are those that saving the resulting state would write. */
  lemma AcceptedIsCanonical(h: Header, parts: Parts, fileBytes: nat, p: Platform, random: Rng)
    requires Accepted(h, parts, fileBytes, p)
    ensures var s := StateOf(h, parts, random);
            HeaderFor(ConfigOf(h), s, h.payloadBytes) == h && PartsOf(s, parts.text) == parts && s.random == random
  {
    var s := StateOf(h, parts, random);
    assert LevelsOf(s.graph) == parts.nodes && FlagsOf(s.graph) == parts.flags;
  }

  /** Every accepted file yields a state in order: dense IDs with their inverse map, unit rows,
      adjacency lists within limits and on their layer, entry point on top, exact tombstone count. */
  lemma LoadIsSound(bytes: seq<byte>, p: Platform, t: TextCodec)
    requires Load(bytes, p, t).Loaded?
    ensures Valid(Load(bytes, p, t).config, p, Load(bytes, p, t).state)
  {
    hide Load, Accepted, ReadHeader, Valid, StateOf, ConfigOf;
    LoadedFile(bytes, p, t);
    AcceptedIsValid(HeaderIn(bytes), PartsIn(bytes, p, t), |bytes|, p, t.parse(PartsIn(bytes, p, t).text).value);
  }

  lemma AcceptedLength(h: Header, parts: Parts, fileBytes: nat, p: Platform)
    requires Accepted(h, parts, fileBytes, p)
    ensures (forall i :: 0 <= i < |parts.nodes| ==> |parts.nodes[i]| > 0) && fileBytes == HEADER_SIZE + h.payloadBytes
  {
  }

  /** An accepted file holds exactly the bytes that its state, configuration and generator text stand
      for, so writing it again changes nothing but the spelling of the generator's state. */
  lemma LoadIsCanonical(bytes: seq<byte>, p: Platform, t: TextCodec)
    requires Load(bytes, p, t).Loaded?
    ensures var s := Load(bytes, p, t).state;
            && LevelCounts(s.graph)
            && bytes == FileOf(Load(bytes, p, t).config, s, PartsIn(bytes, p, t).text)
            && t.parse(PartsIn(bytes, p, t).text) == Some(s.random)
  {
    hide Load, Accepted, ReadHeader, StateOf, ConfigOf, HeaderFor, HeaderBytes, Hash, EncodeParts, Stored, PartsOf,
         PartsIn, HeaderIn, Valid;
    LoadIsSound(bytes, p, t);
    LoadedFile(bytes, p, t);
    var h, parts := HeaderIn(bytes), PartsIn(bytes, p, t);
    var random := t.parse(parts.text).value;
    AcceptedIsCanonical(h, parts, |bytes|, p, random);
    ValidIsShaped(Load(bytes, p, t).config, p, Load(bytes, p, t).state);
    AcceptedLength(h, parts, |bytes|, p);
    StoredSlices(h, EncodeParts(parts));
  }

  lemma AcceptedSizes(bytes: seq<byte>, p: Platform, t: TextCodec)
    requires Load(bytes, p, t).Loaded?
    ensures Valid(Load(bytes, p, t).config, p, Load(bytes, p, t).state)
    ensures |PayloadOf(Load(bytes, p, t).state, PartsIn(bytes, p, t).text)| <= UINT64_MAX
    ensures 0 < |PartsIn(bytes, p, t).text| <= MAXIMUM_TEXT
  {
    LoadIsSound(bytes, p, t);
    LoadedFile(bytes, p, t);
    var h, parts := HeaderIn(bytes), PartsIn(bytes, p, t);
    AcceptedIsCanonical(h, parts, |bytes|, p, t.parse(parts.text).value);
    hide Load, ReadHeader, StateOf, ConfigOf, HeaderFor, HeaderBytes, Hash, EncodeParts;
    StoredSlices(h, EncodeParts(parts));
  }

  /** The same state with two generator texts gives two files. */
  lemma FilesDiffer(config: Config, p: Platform, s: State, a: seq<byte>, b: seq<byte>)
    requires Valid(config, p, s) && 0 < |a| <= MAXIMUM_TEXT && 0 < |b| <= MAXIMUM_TEXT
    requires FileOf(config, s, a) == FileOf(config, s, b)
    ensures a == b
  {
    hide Stored, HeaderBytes, Hash, EncodeParts, ParseParts, LayerOk;
    StoredSlices(HeaderFor(config, s, |PayloadOf(s, a)|), PayloadOf(s, a));
    StoredSlices(HeaderFor(config, s, |PayloadOf(s, b)|), PayloadOf(s, b));
    PartsOfStateFit(config, p, s, a);
    PartsOfStateFit(config, p, s, b);
    ParsePartsComplete(PartsOf(s, a), |s.ids|, config, s.maxLevel, p);
    ParsePartsComplete(PartsOf(s, b), |s.ids|, config, s.maxLevel, p);
  }

  lemma ValidIsWithinLimits(config: Config, p: Platform, s: State)
    requires Valid(config, p, s)
    ensures WithinLimits(config, s)
  {
    DeletedCounts(s.graph);
  }

  /** Saving a loaded index reproduces its file byte for byte, if and only if the file spells the
      generator's state the way this platform prints it. */
  lemma LoadThenSave(bytes: seq<byte>, p: Platform, t: TextCodec)
    requires Load(bytes, p, t).Loaded?
    ensures var s := Load(bytes, p, t).state;
            && LevelCounts(s.graph)
            && (Save(Load(bytes, p, t).config, s, t) == Some(bytes) <==> PartsIn(bytes, p, t).text == t.show(s.random))
  {
    hide Load, ReadHeader, LayerOk, PayloadOf, FileOf, PartsIn, WithinLimits;
    AcceptedSizes(bytes, p, t);
    LoadIsCanonical(bytes, p, t);
    var config, s, text := Load(bytes, p, t).config, Load(bytes, p, t).state, PartsIn(bytes, p, t).text;
    ValidIsWithinLimits(config, p, s);
    if Save(config, s, t) == Some(bytes) {
      FilesDiffer(config, p, s, text, t.show(s.random));
    }
  }
}
