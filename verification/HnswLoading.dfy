/** `HnswIndexSerializer::load`: loops over a reader that accept what `Load` accepts and fill an index
    with what it says. */
module HnswLoading {
  import opened Numbers
  import opened Wrappers
  import opened Bytes
  import opened CheckedArithmetic
  import opened Checksum
  import opened Encoding
  import opened StoredRows
  import opened Streams
  import opened Ranking
  import opened Configuration
  import opened HnswFormat
  import opened HnswFile
  import opened HnswSnapshot
  import opened HnswVersions
  import opened Hnsw

  // ---------- Header ----------

  /** `read_header` */
  method ReadHeader(reader: Reader) returns (r: Option<Header>, stored: nat)
    requires reader.position == 0 && reader.checksum == FNV_OFFSET
    modifies reader
    ensures r == HnswFile.ReadHeader(reader.data)
    ensures r.Some? ==> |reader.data| >= HEADER_SIZE && stored == StoredChecksum(reader.data)
                        && reader.position == HEADER_SIZE && reader.checksum == Hash(FNV_OFFSET, reader.data[..104])
  {
    hide Hash, Power, Value, ParseFields, HeaderOf, Total;
    stored := 0;
    var data := reader.data;
    assert data[0..] == data;
    var ok, magic := reader.ReadBytes(8);
    if !ok || magic != MAGIC {
      return None, 0;
    }
    var v: seq<nat>;
    ghost var after := reader.position;
    ok, v := reader.ReadFields(Widths());
    ReadOn(data, 0, after, reader.position, FNV_OFFSET);
    TotalOfWidths();
    FieldsOfPrefix(data[8..], Widths());
    assert |data| >= 104 ==> data[8..][..96] == data[8..104] && data[8..][96..] == data[104..];
    if !ok {
      return None, 0;
    }
    ok, stored := reader.ReadInteger(8, false);
    if !ok || v[0] < 1 || v[0] > CURRENT_VERSION || v[1] != HEADER_SIZE || v[2] != ENDIAN_MARKER
       || v[3] != NORMALIZED_COSINE || v[11] != 0 {
      return None, 0;
    }
    assert data[104..][..8] == data[104..112];
    return Some(HeaderOf(v)), stored;
  }

  /** IDs and vectors. */
  method FixedPayload(h: Header) returns (r: Option<nat>)
    ensures r == if FixedBytes(h) <= UINT64_MAX then Some(FixedBytes(h)) else None
  {
    var elements: nat :- CheckedMultiply(h.count, h.dimension);
    var vectorBytes: nat :- CheckedMultiply(elements, 4);
    var idBytes: nat :- CheckedMultiply(h.count, 8);
    r := CheckedAdd(idBytes, vectorBytes);
  }

  /** Version 2 added the generator's text, version 3 the tombstones. */
  method SmallestPayload(h: Header, fixed: nat) returns (r: Option<nat>)
    requires fixed == FixedBytes(h) <= UINT64_MAX && FIRST_VERSION <= h.version <= CURRENT_VERSION
    ensures r == if AnyMinimum(h) <= UINT64_MAX then Some(AnyMinimum(h)) else None
  {
    hide FixedBytes;
    var graph: nat :- CheckedMultiply(h.count, 8);
    var minimum: nat :- CheckedAdd(fixed, graph);
    if h.version >= TEXT_VERSION {
      minimum :- CheckedAdd(minimum, 4 + 1);
    }
    if h.version == CURRENT_VERSION {
      var tombstones: nat :- CheckedAdd(8, h.count);
      minimum :- CheckedAdd(minimum, tombstones);
    }
    r := Some(minimum);
  }

  /** The worst case: every node on every layer with full lists. */
  method LargestPayload(h: Header, fixed: nat) returns (r: Option<nat>)
    requires fixed == FixedBytes(h) <= UINT64_MAX && h.maxConnections <= UINT32_MAX / 2
    requires FIRST_VERSION <= h.version <= CURRENT_VERSION
    ensures r == if AnyMaximum(h) <= UINT64_MAX then Some(AnyMaximum(h)) else None
  {
    hide FixedBytes;
    var degreeBytes: nat :- CheckedMultiply(h.maxConnections * 2, 4);
    var layerBytes: nat :- CheckedAdd(4, degreeBytes);
    var levelBytes: nat :- CheckedMultiply(MAXIMUM_LEVEL + 1, layerBytes);
    var nodeBytes: nat :- CheckedAdd(4, levelBytes);
    assert nodeBytes == LargestNode(h.maxConnections);
    hide LargestNode;
    var graph: nat :- CheckedMultiply(h.count, nodeBytes);
    var maximum: nat :- CheckedAdd(fixed, graph);
    if h.version >= TEXT_VERSION {
      maximum :- CheckedAdd(maximum, 4 + MAXIMUM_TEXT);
    }
    if h.version == CURRENT_VERSION {
      var tombstones: nat :- CheckedAdd(8, h.count);
      maximum :- CheckedAdd(maximum, tombstones);
    }
    r := Some(maximum);
  }

  /** `validate_header`: the checks on the fields, and both payload bounds in checked arithmetic. */
  method ValidateHeader(h: Header, fileBytes: nat) returns (r: Option<nat>)
    requires FIRST_VERSION <= h.version <= CURRENT_VERSION
    ensures r.Some? <==> AnyHeaderOk(h, fileBytes)
    ensures r.Some? ==> r.value == fileBytes
  {
    hide LargestNode;
    if h.dimension == 0 || h.maxConnections < 2 || h.maxConnections > UINT32_MAX / 2
       || h.efConstruction < h.maxConnections || h.efSearch == 0 || h.selection > 1 || h.count > UINT32_MAX
       || h.maximumLevel > MAXIMUM_LEVEL {
      return None;
    }
    var fixed: nat :- FixedPayload(h);
    var minimum: nat :- SmallestPayload(h, fixed);
    if h.payloadBytes < minimum {
      return None;
    }
    var maximum: nat :- LargestPayload(h, fixed);
    if h.payloadBytes > maximum {
      return None;
    }
    var fileEnd: nat :- CheckedAdd(HEADER_SIZE, h.payloadBytes);
    if fileEnd != fileBytes {
      return None;
    }
    if h.count == 0 {
      if h.entryPoint != EMPTY_ENTRY || h.maximumLevel != 0 {
        return None;
      }
    } else if h.entryPoint >= h.count {
      return None;
    }
    return Some(fileEnd);
  }

  // ---------- Adjacency lists ----------

  /** The entries of one list; `seen` catches duplicates. */
  method ReadNeighbors(reader: Reader, degree: nat, n: nat, count: nat) returns (ok: bool, list: seq<nat>)
    requires reader.Inside()
    modifies reader
    ensures reader.Covers(old(reader.position), old(reader.checksum))
    ensures ok == ParseNeighbors(old(reader.Rest()), degree, n, count, []).Parsed?
    ensures ok ==> ParseNeighbors(old(reader.Rest()), degree, n, count, []) == Parsed(list, reader.Rest())
  {
    hide Hash, Power, Value;
    ok, list := true, [];
    var seen: set<nat> := {};
    ReadNothing(reader.data, reader.position, reader.checksum);
    PrependNone(ParseNeighbors(reader.Rest(), degree, n, count, []));
    var i := 0;
    while i < degree
      invariant i == |list| <= degree && reader.Covers(old(reader.position), old(reader.checksum))
      invariant forall x :: x in seen <==> x in list
      invariant ParseNeighbors(old(reader.Rest()), degree, n, count, [])
                == Prepend(list, ParseNeighbors(reader.Rest(), degree - i, n, count, list))
    {
      ghost var from := reader.position;
      var v: nat;
      ok, v := reader.ReadInteger(4, true);
      ReadOn(reader.data, old(reader.position), from, reader.position, old(reader.checksum));
      if !ok || v >= count || v == n || v in seen {
        return false, list;
      }
      PrependOne(list, v, ParseNeighbors(reader.Rest(), degree - i - 1, n, count, list + [v]));
      list, seen := list + [v], seen + {v};
      i := i + 1;
    }
    assert list + [] == list;
    return true, list;
  }

  method ReadList(reader: Reader, n: nat, count: nat, limit: nat, fileEnd: nat) returns (ok: bool, list: seq<nat>)
    requires reader.Inside() && fileEnd == |reader.data| <= UINT64_MAX
    modifies reader
    ensures reader.Covers(old(reader.position), old(reader.checksum))
    ensures ok == ParseList(old(reader.Rest()), n, count, limit).Parsed?
    ensures ok ==> ParseList(old(reader.Rest()), n, count, limit) == Parsed(list, reader.Rest())
  {
    hide Hash, Power, Value, ParseNeighbors;
    var degree: nat;
    ok, degree := reader.ReadInteger(4, true);
    if !ok || degree > limit || degree >= count {
      return false, [];
    }
    var length := CheckedMultiply(degree, 4);
    if reader.position > fileEnd || length.None? || length.value > fileEnd - reader.position {
      return false, [];
    }
    ghost var from := reader.position;
    ok, list := ReadNeighbors(reader, degree, n, count);
    ReadOn(reader.data, old(reader.position), from, reader.position, old(reader.checksum));
  }

  method ReadLists(reader: Reader, n: nat, count: nat, config: Config, levels: nat, fileEnd: nat)
    returns (ok: bool, lists: Levels)
    requires reader.Inside() && fileEnd == |reader.data| <= UINT64_MAX
    modifies reader
    ensures reader.Covers(old(reader.position), old(reader.checksum))
    ensures ok == ParseLists(old(reader.Rest()), n, count, config, 0, levels).Parsed?
    ensures ok ==> ParseLists(old(reader.Rest()), n, count, config, 0, levels) == Parsed(lists, reader.Rest())
  {
    hide Hash, ParseList;
    ok, lists := true, [];
    ReadNothing(reader.data, reader.position, reader.checksum);
    PrependNone(ParseLists(reader.Rest(), n, count, config, 0, levels));
    var layer := 0;
    while layer < levels
      invariant layer == |lists| <= levels && reader.Covers(old(reader.position), old(reader.checksum))
      invariant ParseLists(old(reader.Rest()), n, count, config, 0, levels)
                == Prepend(lists, ParseLists(reader.Rest(), n, count, config, layer, levels))
    {
      ghost var from := reader.position;
      var list: seq<nat>;
      ok, list := ReadList(reader, n, count, MaximumConnections(config, layer), fileEnd);
      ReadOn(reader.data, old(reader.position), from, reader.position, old(reader.checksum));
      if !ok {
        return;
      }
      PrependOne(lists, list, ParseLists(reader.Rest(), n, count, config, layer + 1, levels));
      lists := lists + [list];
      layer := layer + 1;
    }
    assert lists + [] == lists;
  }

  method ReadNode(reader: Reader, n: nat, count: nat, config: Config, maximumLevel: nat, fileEnd: nat)
    returns (ok: bool, levels: Levels)
    requires reader.Inside() && fileEnd == |reader.data| <= UINT64_MAX
    modifies reader
    ensures reader.Covers(old(reader.position), old(reader.checksum))
    ensures ok == ParseNode(old(reader.Rest()), n, count, config, maximumLevel).Parsed?
    ensures ok ==> ParseNode(old(reader.Rest()), n, count, config, maximumLevel) == Parsed(levels, reader.Rest())
  {
    hide Hash, Power, Value, ParseLists;
    var level: nat;
    ok, level := reader.ReadInteger(4, true);
    if !ok || level > MAXIMUM_LEVEL || level > maximumLevel {
      return false, [];
    }
    ghost var from := reader.position;
    ok, levels := ReadLists(reader, n, count, config, level + 1, fileEnd);
    ReadOn(reader.data, old(reader.position), from, reader.position, old(reader.checksum));
  }

  /** All nodes, and the highest level met on the way. */
  method ReadNodes(reader: Reader, count: nat, config: Config, maximumLevel: nat, fileEnd: nat)
    returns (ok: bool, nodes: seq<Levels>, observed: nat)
    requires reader.Inside() && fileEnd == |reader.data| <= UINT64_MAX
    modifies reader
    ensures reader.Covers(old(reader.position), old(reader.checksum))
    ensures ok == ParseNodes(old(reader.Rest()), 0, count, config, maximumLevel).Parsed?
    ensures ok ==>
      && ParseNodes(old(reader.Rest()), 0, count, config, maximumLevel) == Parsed(nodes, reader.Rest())
      && (forall i :: 0 <= i < |nodes| ==> |nodes[i]| > 0)
      && observed == MaxLevelOf(nodes)
  {
    hide Hash, ParseNode, MaxLevelOf;
    ok, nodes, observed := true, [], 0;
    ReadNothing(reader.data, reader.position, reader.checksum);
    PrependNone(ParseNodes(reader.Rest(), 0, count, config, maximumLevel));
    NoNodes();
    var n := 0;
    while n < count
      invariant n == |nodes| <= count && reader.Covers(old(reader.position), old(reader.checksum))
      invariant ParseNodes(old(reader.Rest()), 0, count, config, maximumLevel)
                == Prepend(nodes, ParseNodes(reader.Rest(), n, count, config, maximumLevel))
      invariant (forall i :: 0 <= i < |nodes| ==> |nodes[i]| > 0) && observed == MaxLevelOf(nodes)
    {
      ghost var from := reader.position;
      var levels: Levels;
      ok, levels := ReadNode(reader, n, count, config, maximumLevel, fileEnd);
      ReadOn(reader.data, old(reader.position), from, reader.position, old(reader.checksum));
      if !ok {
        return;
      }
      PrependOne(nodes, levels, ParseNodes(reader.Rest(), n + 1, count, config, maximumLevel));
      OneMoreLevel(nodes, levels);
      observed := Most(observed, |levels| - 1);
      nodes := nodes + [levels];
      n := n + 1;
    }
    assert nodes + [] == nodes;
  }

  lemma NoNodes()
    ensures MaxLevelOf([]) == 0
  {
  }

  lemma {:induction false} OneMoreLevel(nodes: seq<Levels>, levels: Levels)
    requires (forall i :: 0 <= i < |nodes| ==> |nodes[i]| > 0) && |levels| > 0
    ensures MaxLevelOf(nodes + [levels]) == Most(MaxLevelOf(nodes), |levels| - 1)
  {
    if nodes == [] {
      assert [levels][1..] == [];
    } else {
      OneMoreLevel(nodes[1..], levels);
      assert (nodes + [levels])[1..] == nodes[1..] + [levels];
    }
  }

  /** Every neighbour must be present on the layer that refers to it. */
  method CheckPresence(nodes: seq<Levels>) returns (ok: bool)
    requires forall n, c, i :: 0 <= n < |nodes| && 0 <= c < |nodes[n]| && 0 <= i < |nodes[n][c]| ==>
               nodes[n][c][i] < |nodes|
    ensures ok == AllPresent(nodes)
  {
    for n := 0 to |nodes|
      invariant forall m :: 0 <= m < n ==> NodePresent(nodes, m, |nodes[m]|)
    {
      for c := 0 to |nodes[n]|
        invariant NodePresent(nodes, n, c)
      {
        for i := 0 to |nodes[n][c]|
          invariant ListPresentUpTo(nodes, n, c, i)
        {
          if |nodes[nodes[n][c][i]]| <= c {
            return false;
          }
        }
      }
    }
    return true;
  }

  ghost predicate NodePresent(nodes: seq<Levels>, n: nat, layers: nat)
    requires n < |nodes| && layers <= |nodes[n]|
  {
    forall c :: 0 <= c < layers ==> ListPresentUpTo(nodes, n, c, |nodes[n][c]|)
  }

  ghost predicate ListPresentUpTo(nodes: seq<Levels>, n: nat, c: nat, length: nat)
    requires n < |nodes| && c < |nodes[n]| && length <= |nodes[n][c]|
  {
    forall i :: 0 <= i < length ==> nodes[n][c][i] < |nodes| && c < |nodes[nodes[n][c][i]]|
  }

  // ---------- Tombstones and generator ----------

  ghost predicate FlagsAreBits(flags: seq<nat>) {
    forall i :: 0 <= i < |flags| ==> flags[i] <= 1
  }

  method ReadFlags(reader: Reader, count: nat) returns (ok: bool, flags: seq<nat>, deleted: nat)
    requires reader.Inside()
    modifies reader
    ensures reader.Covers(old(reader.position), old(reader.checksum))
    ensures var parsed := ParseInts(old(reader.Rest()), count, 1);
            && ok == (parsed.Parsed? && FlagsAreBits(parsed.value))
            && (ok ==> parsed == Parsed(flags, reader.Rest()) && deleted == Deleted(flags))
  {
    hide Hash, Power, Value, Deleted;
    ok, flags, deleted := true, [], 0;
    ReadNothing(reader.data, reader.position, reader.checksum);
    PrependNone(ParseInts(reader.Rest(), count, 1));
    NoFlags();
    var i := 0;
    while i < count
      invariant i == |flags| <= count && reader.Covers(old(reader.position), old(reader.checksum))
      invariant ParseInts(old(reader.Rest()), count, 1) == Prepend(flags, ParseInts(reader.Rest(), count - i, 1))
      invariant FlagsAreBits(flags) && deleted == Deleted(flags)
    {
      ghost var from := reader.position;
      var flag: nat;
      ok, flag := reader.ReadInteger(1, true);
      ReadOn(reader.data, old(reader.position), from, reader.position, old(reader.checksum));
      if !ok {
        return;
      }
      PrependOne(flags, flag, ParseInts(reader.Rest(), count - i - 1, 1));
      if flag > 1 {
        FlagStays(flags, flag, ParseInts(reader.Rest(), count - i - 1, 1));
        return false, flags, deleted;
      }
      OneMoreFlag(flags, flag);
      flags, deleted := flags + [flag], deleted + flag;
      i := i + 1;
    }
    assert flags + [] == flags;
    return true, flags, deleted;
  }

  lemma NoFlags()
    ensures Deleted([]) == 0
  {
  }

  lemma OneMoreFlag(flags: seq<nat>, flag: nat)
    requires flag <= 1
    ensures Deleted(flags + [flag]) == Deleted(flags) + flag
  {
    DeletedJoin(flags, [flag]);
  }

  lemma FlagStays(flags: seq<nat>, flag: nat, more: Parsed<seq<nat>>)
    requires flag > 1
    ensures var all := Prepend(flags + [flag], more); all.Parsed? ==> !FlagsAreBits(all.value)
  {
    if more.Parsed? {
      assert Prepend(flags + [flag], more).value[|flags|] == flag;
    }
  }

  /** Live count and tombstones. */
  method ReadTombstones(reader: Reader, count: nat) returns (ok: bool, flags: seq<nat>, deleted: nat)
    requires reader.Inside()
    modifies reader
    ensures reader.Covers(old(reader.position), old(reader.checksum))
    ensures ok ==> |flags| == count && deleted == Deleted(flags)
    ensures ParseTail(old(reader.Rest()), count)
            == if !ok then None
               else match ParseText(reader.Rest()) case None => None case Some(text) => Some((flags, text))
  {
    hide Hash, Power, Value, ParseInts, ParseInt, ParseText, Deleted;
    flags, deleted := [], 0;
    var live: nat;
    ok, live := reader.ReadInteger(8, true);
    if !ok || live > count {
      return false, [], 0;
    }
    ghost var from := reader.position;
    ok, flags, deleted := ReadFlags(reader, count);
    ReadOn(reader.data, old(reader.position), from, reader.position, old(reader.checksum));
    ok := ok && count - deleted == live;
  }

  /** The generator's text, which must be all that is left. */
  method ReadText(reader: Reader, t: TextCodec, fileEnd: nat) returns (random: Option<Rng>)
    requires reader.Inside() && fileEnd == |reader.data|
    modifies reader
    ensures reader.Covers(old(reader.position), old(reader.checksum))
    ensures random == match ParseText(old(reader.Rest())) case None => None case Some(text) => t.parse(text)
    ensures random.Some? ==> reader.position == |reader.data|
  {
    hide Hash, Power, Value, ParseInt;
    var ok, length := reader.ReadInteger(4, true);
    if !ok || length == 0 || length > MAXIMUM_TEXT || reader.position > fileEnd || length != fileEnd - reader.position {
      return None;
    }
    ghost var from := reader.position;
    var text;
    ok, text := reader.ReadBytes(length);
    ReadOn(reader.data, old(reader.position), from, reader.position, old(reader.checksum));
    assert reader.data[from..][..length] == reader.data[from..];
    random := t.parse(text);
  }

  // ---------- The whole payload ----------

  /** What all versions start with; the ID map is built on the way. */
  method ReadBody(reader: Reader, h: Header, p: Platform, fileEnd: nat)
    returns (ok: bool, body: Body, idToNode: map<VectorId, nat>, observed: nat)
    requires reader.Inside() && fileEnd == |reader.data| <= UINT64_MAX
    modifies reader
    ensures reader.Covers(old(reader.position), old(reader.checksum))
    ensures var parsed := ParseBody(old(reader.Rest()), h.count, ConfigOf(h), h.maximumLevel, p);
            && ok == parsed.Parsed?
            && (ok ==> parsed == Parsed(body, reader.Rest()))
    ensures ok ==>
      && idToNode == IdMap(body.ids)
      && (forall i :: 0 <= i < |body.nodes| ==> |body.nodes[i]| > 0)
      && observed == MaxLevelOf(body.nodes)
  {
    hide Hash, ParseInts, ParseRows, ParseNodes, IdMap, MaxLevelOf;
    var config := ConfigOf(h);
    body, idToNode, observed := Body([], [], []), map[], 0;
    var ids: seq<VectorId>, vectors: seq<Vector>, nodes: seq<Levels>;
    ok, ids, idToNode := ReadIds(reader, h.count);
    if !ok {
      return;
    }
    ghost var from := reader.position;
    ok, vectors := ReadRows(reader, h.count, config.dimension, p);
    ReadOn(reader.data, old(reader.position), from, reader.position, old(reader.checksum));
    if !ok {
      return;
    }
    from := reader.position;
    ok, nodes, observed := ReadNodes(reader, h.count, config, h.maximumLevel, fileEnd);
    ReadOn(reader.data, old(reader.position), from, reader.position, old(reader.checksum));
    body := Body(ids, vectors, nodes);
  }

  /** The checks on the graph as a whole. */
  method CheckGraph(body: Body, observed: nat, h: Header, p: Platform, ghost bytes: seq<byte>) returns (ok: bool)
    requires ParseBody(bytes, h.count, ConfigOf(h), h.maximumLevel, p).Parsed? && EntryFieldsOk(h)
    requires ParseBody(bytes, h.count, ConfigOf(h), h.maximumLevel, p).value == body
    requires observed == MaxLevelOf(body.nodes)
    ensures ok == GraphChecks(body.nodes, h)
  {
    hide ParseBody, MaxLevelOf, AllPresent;
    BodyInRange(bytes, h.count, ConfigOf(h), h.maximumLevel, p);
    if observed != h.maximumLevel || (h.count > 0 && |body.nodes[h.entryPoint]| - 1 != h.maximumLevel) {
      return false;
    }
    ok := CheckPresence(body.nodes);
  }

  /** What the version has besides: tombstones from 3 on, the generator's text from 2 on. Without a text the
      generator starts from the seed. */
  method ReadRest(reader: Reader, h: Header, p: Platform, t: TextCodec, fileEnd: nat)
    returns (ok: bool, flags: seq<nat>, deleted: nat, random: Rng)
    requires reader.Inside() && fileEnd == |reader.data| && FIRST_VERSION <= h.version <= CURRENT_VERSION
    modifies reader
    ensures reader.Covers(old(reader.position), old(reader.checksum))
    ensures RestOf(old(reader.Rest()), h, p, t) == if ok then Some((flags, random)) else None
    ensures ok ==> |flags| == h.count && deleted == Deleted(flags)
    ensures ok ==> reader.position == if h.version == FIRST_VERSION then old(reader.position) else |reader.data|
  {
    hide Hash, Power, Value, ParseTail, ParseText, Deleted;
    flags, deleted, random := AllLive(h.count), 0, p.seeded(h.seed);
    NoneDeleted(h.count);
    ReadNothing(reader.data, reader.position, reader.checksum);
    ok := true;
    if h.version == CURRENT_VERSION {
      ok, flags, deleted := ReadTombstones(reader, h.count);
      if !ok {
        return;
      }
    }
    if h.version >= TEXT_VERSION {
      ghost var from := reader.position;
      var parsed := ReadText(reader, t, fileEnd);
      ReadOn(reader.data, old(reader.position), from, reader.position, old(reader.checksum));
      ok := parsed.Some?;
      random := if ok then parsed.value else random;
    }
  }

  /** Everything after the header, for every version: read it, check the graph as a whole, compare the checksum with
      what was read, fill the index. */
  method LoadPayload(reader: Reader, h: Header, stored: nat, p: Platform, t: TextCodec) returns (index: HnswIndex?)
    requires reader.position == HEADER_SIZE <= |reader.data| && stored == StoredChecksum(reader.data)
    requires reader.checksum == Hash(FNV_OFFSET, reader.data[..104])
    requires HnswFile.ReadHeader(reader.data) == Some(h) && AnyHeaderOk(h, |reader.data|)
    modifies reader
    ensures var r := LoadAny(reader.data, p, t);
            && (index != null <==> r.Some?)
            && (index != null ==> fresh(index) && index.config == r.value.0 && index.platform == p
                                  && index.Logical() == r.value.1)
  {
    hide Hash, ParseBody, GraphOf, IdMap, Deleted, MaxLevelOf, GraphChecks, RestOf, Value, HnswFile.ReadHeader, LoadAny,
         HeaderOk, OldHeaderOk, Covered, CoveredBody, CoveredFor, FilledState, ConfigOf, StoredChecksum;
    ReadHeaderSound(reader.data);
    VersionInRange(reader.data);
    AnyFields(h, |reader.data|);
    AnyUnfolds(reader.data, p, t);
    index := null;
    var ok, body, idToNode, observed := ReadBody(reader, h, p, |reader.data|);
    if !ok {
      return;
    }
    ok := CheckGraph(body, observed, h, p, reader.data[HEADER_SIZE..]);
    if !ok {
      return;
    }
    ghost var from := reader.position;
    var flags, deleted, random;
    ok, flags, deleted, random := ReadRest(reader, h, p, t, |reader.data|);
    ReadOn(reader.data, HEADER_SIZE, from, reader.position, Hash(FNV_OFFSET, reader.data[..104]));
    if ok {
      WhatWasRead(reader.data, h, from, reader.position);
    }
    if !ok || reader.checksum != stored {
      return;
    }
    index := Fill(h, body, idToNode, flags, deleted, random, p);
  }

  method Fill(h: Header, body: Body, idToNode: map<VectorId, nat>, flags: seq<nat>, deleted: nat, random: Rng,
              p: Platform)
    returns (index: HnswIndex)
    requires ValidConfig(ConfigOf(h)) && |body.ids| == |body.nodes| == |flags| == h.count
    requires idToNode == IdMap(body.ids) && deleted == Deleted(flags)
    ensures fresh(index) && index.config == ConfigOf(h) && index.platform == p
    ensures index.Logical() == FilledState(h, body, flags, random)
  {
    hide GraphOf, IdMap, Deleted;
    index := new HnswIndex(ConfigOf(h), p);
    index.ids, index.idToNode, index.vectors := body.ids, idToNode, body.vectors;
    index.graph, index.deletedCount := GraphOf(body.nodes, flags), deleted;
    index.random, index.maxLevel := random, h.maximumLevel;
    index.entryPoint := if h.count == 0 then 0 else h.entryPoint;
  }

  lemma AnyFields(h: Header, fileBytes: nat)
    requires AnyHeaderOk(h, fileBytes) && FieldsFit(Fields(h), Widths())
    ensures ValidConfig(ConfigOf(h)) && EntryFieldsOk(h) && fileBytes <= UINT64_MAX
  {
    hide FieldsFit, Fields;
    FieldsConfig(h);
  }

  /** The checksum covers what was read: up to the body in version 1, everything after that. */
  lemma WhatWasRead(data: seq<byte>, h: Header, from: nat, end: nat)
    requires HEADER_SIZE <= from <= |data| && end == if h.version == FIRST_VERSION then from else |data|
    ensures Hash(Hash(FNV_OFFSET, data[..104]), data[HEADER_SIZE..end])
            == Hash(FNV_OFFSET, CoveredFor(data, h, data[from..]))
  {
    hide Hash;
    HashJoin(FNV_OFFSET, data[..104], data[HEADER_SIZE..end]);
    assert data[HEADER_SIZE..|data|] == data[HEADER_SIZE..];
  }

  lemma BodyInRange(bytes: seq<byte>, count: nat, config: Config, maximumLevel: nat, p: Platform)
    requires ParseBody(bytes, count, config, maximumLevel, p).Parsed?
    ensures var body := ParseBody(bytes, count, config, maximumLevel, p).value;
            && |body.ids| == |body.nodes| == count
            && forall n, c, i :: 0 <= n < |body.nodes| && 0 <= c < |body.nodes[n]| && 0 <= i < |body.nodes[n][c]| ==>
                 body.nodes[n][c][i] < |body.nodes|
  {
    ParseBodySound(bytes, count, config, maximumLevel, p);
    hide ParseBody, EncodeBody;
    var nodes := ParseBody(bytes, count, config, maximumLevel, p).value.nodes;
    forall n, c | 0 <= n < |nodes| && 0 <= c < |nodes[n]|
      ensures forall i :: 0 <= i < |nodes[n][c]| ==> nodes[n][c][i] < |nodes|
    {
      assert NodeFits(nodes[n], 0 + n, count, config, maximumLevel);
      assert ListFits(nodes[n][c], 0 + n, count, MaximumConnections(config, 0 + c));
    }
  }

  /** `load`, for all three format versions. */
  method Load(data: seq<byte>, p: Platform, t: TextCodec) returns (index: HnswIndex?)
    ensures var r := LoadAny(data, p, t);
            && (index != null <==> r.Some?)
            && (index != null ==> fresh(index) && index.config == r.value.0 && index.platform == p
                                  && index.Logical() == r.value.1)
    ensures index != null ==> index.Valid()
  {
    hide AnyHeaderOk, HnswFile.ReadHeader, LoadAny, Hash, HnswState.Valid;
    RejectedEarly(data, p, t);
    index := null;
    var reader := new Reader(data);
    var header, stored := ReadHeader(reader);
    if header.None? {
      return;
    }
    VersionInRange(data);
    var fileEnd := ValidateHeader(header.value, |data|);
    if fileEnd.None? {
      return;
    }
    index := LoadPayload(reader, header.value, stored, p, t);
    if index != null {
      LoadAnyIsSound(data, p, t);
    }
  }

  lemma RejectedEarly(bytes: seq<byte>, p: Platform, t: TextCodec)
    ensures HnswFile.ReadHeader(bytes).None? || !AnyHeaderOk(HnswFile.ReadHeader(bytes).value, |bytes|) ==>
      LoadAny(bytes, p, t) == None
  {
    hide AnyHeaderOk, HnswFile.ReadHeader, LoadAny;
    if HnswFile.ReadHeader(bytes).Some? {
      AnyUnfolds(bytes, p, t);
    } else {
      NoHeader(bytes, p, t);
    }
  }

  lemma NoHeader(bytes: seq<byte>, p: Platform, t: TextCodec)
    requires HnswFile.ReadHeader(bytes).None?
    ensures LoadAny(bytes, p, t) == None
  {
    hide HnswFile.ReadHeader;
  }
}
