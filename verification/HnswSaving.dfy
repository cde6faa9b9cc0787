/** `HnswIndexSerializer::save`: loops over an index and a sink that produce what `Save` says. */
module HnswSaving {
  import opened Wrappers
  import opened Bytes
  import opened CheckedArithmetic
  import opened Checksum
  import opened Encoding
  import opened StoredRows
  import opened Streams
  import opened Configuration
  import opened GraphLinks
  import opened HnswState
  import opened HnswFormat
  import opened HnswFile
  import opened HnswSnapshot
  import opened Hnsw

  // ---------- Saving ----------

  method CountDeleted(graph: Graph) returns (deleted: nat)
    ensures deleted == Deleted(FlagsOf(graph))
  {
    deleted := 0;
    var i := 0;
    while i < |graph|
      invariant i <= |graph| && deleted + Deleted(FlagsOf(graph)[i..]) == Deleted(FlagsOf(graph))
    {
      assert FlagsOf(graph)[i..][1..] == FlagsOf(graph)[i + 1..];
      if graph[i].deleted {
        deleted := deleted + 1;
      }
      i := i + 1;
    }
  }

  /** Bytes of one node's level and lists on top of `start`, or overflow. */
  method AddNodeBytes(start: nat, levels: Levels) returns (r: Option<nat>)
    requires start <= UINT64_MAX && |levels| > 0
    ensures var total := start + |EncodeNode(levels)|;
            r == if total <= UINT64_MAX then Some(total) else None
  {
    hide LittleEndian, EncodeInts;
    var bytes: nat :- CheckedAdd(start, 4);
    var i := 0;
    while i < |levels|
      invariant i <= |levels| && bytes <= UINT64_MAX
      invariant bytes + |EncodeLists(levels[i..])| == start + |EncodeNode(levels)|
    {
      assert levels[i..][1..] == levels[i + 1..];
      bytes :- CheckedAdd(bytes, 4);
      var edges: nat :- CheckedMultiply(|levels[i]|, 4);
      bytes :- CheckedAdd(bytes, edges);
      i := i + 1;
    }
    return Some(bytes);
  }

  /** Bytes of all nodes on top of `start`, or overflow. */
  method AddGraphBytes(start: nat, graph: Graph) returns (r: Option<nat>)
    requires start <= UINT64_MAX && LevelCounts(graph)
    ensures var total := start + |EncodeNodes(LevelsOf(graph))|;
            r == if total <= UINT64_MAX then Some(total) else None
  {
    hide EncodeNode;
    ghost var nodes := LevelsOf(graph);
    var bytes: nat := start;
    var i := 0;
    while i < |graph|
      invariant i <= |graph| && bytes <= UINT64_MAX
      invariant bytes + |EncodeNodes(nodes[i..])| == start + |EncodeNodes(nodes)|
    {
      assert nodes[i..][1..] == nodes[i + 1..];
      bytes :- AddNodeBytes(bytes, graph[i].levels);
      i := i + 1;
    }
    return Some(bytes);
  }

  method PayloadLength(config: Config, s: State, text: seq<byte>) returns (r: Option<nat>)
    requires Shaped(config, s) && |s.graph| == |s.ids|
    ensures var total := |PayloadOf(s, text)|;
            r == if total <= UINT64_MAX then Some(total) else None
  {
    hide PayloadOf, EncodeNodes;
    PayloadSize(config, s, text);
    hide Shaped;
    var elements: nat :- CheckedMultiply(|s.ids|, config.dimension);
    var idBytes: nat :- CheckedMultiply(|s.ids|, 8);
    var vectorBytes: nat :- CheckedMultiply(elements, 4);
    var bytes: nat :- CheckedAdd(idBytes, vectorBytes);
    bytes :- AddGraphBytes(bytes, s.graph);
    bytes :- CheckedAdd(bytes, 4 + |text|);
    var tombstones: nat :- CheckedAdd(8, |s.ids|);
    r := CheckedAdd(bytes, tombstones);
  }

  // ---------- Writing ----------

  method PutLists(sink: Sink, lists: Levels)
    modifies sink
    ensures sink.Took(old(sink.bytes), old(sink.checksum), EncodeLists(lists))
  {
    hide Hash, EncodeInts, LittleEndian;
    var i := 0;
    while i < |lists|
      invariant i <= |lists|
      invariant sink.Owes(old(sink.bytes), old(sink.checksum), EncodeLists(lists), EncodeLists(lists[i..]))
    {
      assert lists[i..][1..] == lists[i + 1..];
      PutNext(sink.bytes, sink.checksum, EncodeList(lists[i]), EncodeLists(lists[i + 1..]));
      PutNext(sink.bytes, sink.checksum, LittleEndian(|lists[i]|, 4), EncodeInts(lists[i], 4));
      sink.PutInteger(|lists[i]|, 4);
      sink.PutIntegers(lists[i], 4);
      i := i + 1;
    }
    PutDone(sink.bytes, sink.checksum);
  }

  method PutGraph(sink: Sink, graph: Graph)
    requires LevelCounts(graph)
    modifies sink
    ensures sink.Took(old(sink.bytes), old(sink.checksum), EncodeNodes(LevelsOf(graph)))
  {
    hide Hash, EncodeLists, LittleEndian;
    ghost var nodes := LevelsOf(graph);
    var i := 0;
    while i < |graph|
      invariant i <= |graph|
      invariant sink.Owes(old(sink.bytes), old(sink.checksum), EncodeNodes(nodes), EncodeNodes(nodes[i..]))
    {
      assert nodes[i..][1..] == nodes[i + 1..] && nodes[i..][0] == graph[i].levels;
      var levels := graph[i].levels;
      PutNext(sink.bytes, sink.checksum, EncodeNode(levels), EncodeNodes(nodes[i + 1..]));
      PutNext(sink.bytes, sink.checksum, LittleEndian(|levels| - 1, 4), EncodeLists(levels));
      sink.PutInteger(|levels| - 1, 4);
      PutLists(sink, levels);
      i := i + 1;
    }
    PutDone(sink.bytes, sink.checksum);
  }

  method PutFlags(sink: Sink, graph: Graph)
    modifies sink
    ensures sink.Took(old(sink.bytes), old(sink.checksum), EncodeInts(FlagsOf(graph), 1))
  {
    hide Hash, LittleEndian;
    ghost var flags := FlagsOf(graph);
    var i := 0;
    while i < |graph|
      invariant i <= |graph|
      invariant sink.Owes(old(sink.bytes), old(sink.checksum), EncodeInts(flags, 1), EncodeInts(flags[i..], 1))
    {
      assert flags[i..][1..] == flags[i + 1..];
      PutNext(sink.bytes, sink.checksum, LittleEndian(flags[i], 1), EncodeInts(flags[i + 1..], 1));
      sink.PutInteger(if graph[i].deleted then 1 else 0, 1);
      i := i + 1;
    }
    PutDone(sink.bytes, sink.checksum);
  }

  /** Everything after the header; run once for the checksum and once for the file. */
  method PutPayload(sink: Sink, s: State, text: seq<byte>)
    requires LevelCounts(s.graph) && |s.ids| == |s.graph| && Deleted(FlagsOf(s.graph)) == s.deletedCount
    modifies sink
    ensures sink.Took(old(sink.bytes), old(sink.checksum), PayloadOf(s, text))
  {
    hide Hash, LittleEndian, EncodeInts, EncodeRows, EncodeNodes, EncodeFields;
    var flags := FlagsOf(s.graph);
    var live := |flags| - s.deletedCount;
    ghost var ids, rows, nodes := EncodeInts(s.ids, 8), EncodeRows(s.vectors), EncodeNodes(LevelsOf(s.graph));
    ghost var bits, size := EncodeInts(flags, 1), LittleEndian(|text|, 4);
    PutNext(sink.bytes, sink.checksum, ids, rows + (nodes + EncodeTail(flags, text)));
    sink.PutIntegers(s.ids, 8);
    PutNext(sink.bytes, sink.checksum, rows, nodes + EncodeTail(flags, text));
    PutRows(sink, s.vectors);
    PutNext(sink.bytes, sink.checksum, nodes, EncodeTail(flags, text));
    PutGraph(sink, s.graph);
    PutNext(sink.bytes, sink.checksum, LittleEndian(live, 8), bits + (size + text));
    sink.PutInteger(live, 8);
    PutNext(sink.bytes, sink.checksum, bits, size + text);
    PutFlags(sink, s.graph);
    PutNext(sink.bytes, sink.checksum, size, text);
    sink.PutInteger(|text|, 4);
    sink.PutAll(text);
  }

  method PutHeader(sink: Sink, h: Header)
    modifies sink
    ensures sink.Took(old(sink.bytes), old(sink.checksum), HeaderBytes(h))
  {
    hide Hash, LittleEndian, EncodeFields;
    PutNext(sink.bytes, sink.checksum, MAGIC, EncodeFields(Fields(h), Widths()));
    sink.PutAll(MAGIC);
    sink.PutFields(Fields(h), Widths());
  }

  /** `save`: measure, compute the checksum, then write header and payload. */
  method Save(index: HnswIndex, t: TextCodec) returns (r: Option<seq<byte>>)
    requires Shaped(index.config, index.Logical())
    ensures r == HnswSnapshot.Save(index.config, index.Logical(), t)
  {
    hide Hash, LittleEndian, EncodeParts, HeaderBytes, Deleted, FlagsOf, PayloadOf;
    var config, s := index.config, State(index.vectors, index.ids, index.graph, index.idToNode, index.random,
                                         index.entryPoint, index.maxLevel, index.deletedCount);
    if |s.ids| > UINT32_MAX || |s.graph| != |s.ids| || config.maxConnections > UINT32_MAX / 2 {
      return None;
    }
    var deleted := CountDeleted(s.graph);
    if deleted != s.deletedCount {
      return None;
    }
    var text := t.show(s.random);
    if text == [] || |text| > MAXIMUM_TEXT {
      return None;
    }
    var length :- PayloadLength(config, s, text);
    var h := HeaderFor(config, s, length);
    var digest := new Sink();
    PutHeader(digest, h);
    PutPayload(digest, s, text);
    HashJoin(FNV_OFFSET, HeaderBytes(h), PayloadOf(s, text));
    var output := new Sink();
    PutHeader(output, h);
    output.PutInteger(digest.checksum, 8);
    PutPayload(output, s, text);
    assert [] + HeaderBytes(h) == HeaderBytes(h);
    return Some(output.bytes);
  }
}
