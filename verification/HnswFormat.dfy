/** The version-3 HNSW snapshot format: a printer for index states and a validating parser. */
module HnswFormat {
  import opened Wrappers
  import opened Bytes
  import opened Encoding
  import opened Ranking
  import opened Configuration

  const MAGIC: seq<byte> := [70, 86, 72, 78, 83, 87, 0, 0]
  const CURRENT_VERSION: nat := 3
  const HEADER_SIZE: nat := 112
  const MAXIMUM_TEXT: nat := 16 * 1024
  const ENDIAN_MARKER: nat := 0x01020304
  const NORMALIZED_COSINE: nat := 1
  const MAXIMUM_LEVEL: nat := 63
  const EMPTY_ENTRY: nat := UINT64_MAX

  /** How the generator's state is printed and read back. */
  datatype TextCodec = TextCodec(show: Rng -> seq<byte>, parse: seq<byte> -> Option<Rng>)

  ghost predicate LawfulText(t: TextCodec) {
    forall r: Rng :: t.parse(t.show(r)) == Some(r)
  }

  datatype Header = Header(
    version: nat, dimension: nat, count: nat, maxConnections: nat, efConstruction: nat, efSearch: nat, seed: nat,
    selection: nat, maximumLevel: nat, entryPoint: nat, payloadBytes: nat)

  // ---------- Adjacency lists ----------

  type Levels = seq<seq<nat>>

  function EncodeList(list: seq<nat>): seq<byte> {
    LittleEndian(|list|, 4) + EncodeInts(list, 4)
  }

  function EncodeLists(lists: Levels): seq<byte> {
    if lists == [] then [] else EncodeList(lists[0]) + EncodeLists(lists[1..])
  }

  function EncodeNode(levels: Levels): seq<byte>
    requires |levels| > 0
  {
    LittleEndian(|levels| - 1, 4) + EncodeLists(levels)
  }

  function EncodeNodes(nodes: seq<Levels>): seq<byte>
    requires forall i :: 0 <= i < |nodes| ==> |nodes[i]| > 0
  {
    if nodes == [] then [] else EncodeNode(nodes[0]) + EncodeNodes(nodes[1..])
  }

  /** An adjacency list the loader accepts for node `n`: short enough, in range, no self-loop, no
      duplicates. */
  ghost predicate ListFits(list: seq<nat>, n: nat, count: nat, limit: nat) {
    && |list| <= limit && |list| < count
    && Distinct(list)
    && forall i :: 0 <= i < |list| ==> list[i] < count && list[i] != n
  }

  /** The entries of a list, checked one by one against those before. */
  function ParseNeighbors(bytes: seq<byte>, degree: nat, n: nat, count: nat, seen: seq<nat>): (r: Parsed<seq<nat>>)
    ensures r.Parsed? ==> |r.value| == degree
    decreases degree
  {
    if degree == 0 then Parsed([], bytes) else
      match ParseInt(bytes, 4)
      case Failed => Failed
      case Parsed(v, rest) =>
        if v >= count || v == n || v in seen then Failed else
          match ParseNeighbors(rest, degree - 1, n, count, seen + [v])
          case Failed => Failed
          case Parsed(vs, rest') => Parsed([v] + vs, rest')
  }

  function ParseList(bytes: seq<byte>, n: nat, count: nat, limit: nat): Parsed<seq<nat>> {
    match ParseInt(bytes, 4)
    case Failed => Failed
    case Parsed(degree, rest) =>
      if degree > limit || degree >= count || degree * 4 > |rest| then Failed
      else ParseNeighbors(rest, degree, n, count, [])
  }

  /** The lists of node `n` on layers `layer..levels`. */
  function ParseLists(bytes: seq<byte>, n: nat, count: nat, config: Config, layer: nat, levels: nat)
    : (r: Parsed<Levels>)
    requires layer <= levels
    ensures r.Parsed? ==> |r.value| == levels - layer
    decreases levels - layer
  {
    if layer == levels then Parsed([], bytes) else
      match ParseList(bytes, n, count, MaximumConnections(config, layer))
      case Failed => Failed
      case Parsed(list, rest) =>
        match ParseLists(rest, n, count, config, layer + 1, levels)
        case Failed => Failed
        case Parsed(lists, rest') => Parsed([list] + lists, rest')
  }

  function ParseNode(bytes: seq<byte>, n: nat, count: nat, config: Config, maximumLevel: nat): (r: Parsed<Levels>)
    ensures r.Parsed? ==> |r.value| > 0
  {
    match ParseInt(bytes, 4)
    case Failed => Failed
    case Parsed(level, rest) =>
      if level > MAXIMUM_LEVEL || level > maximumLevel then Failed
      else ParseLists(rest, n, count, config, 0, level + 1)
  }

  function ParseNodes(bytes: seq<byte>, n: nat, count: nat, config: Config, maximumLevel: nat): (r: Parsed<seq<Levels>>)
    requires n <= count
    ensures r.Parsed? ==> |r.value| == count - n && forall i :: 0 <= i < |r.value| ==> |r.value[i]| > 0
    decreases count - n
  {
    if n == count then Parsed([], bytes) else
      match ParseNode(bytes, n, count, config, maximumLevel)
      case Failed => Failed
      case Parsed(levels, rest) =>
        match ParseNodes(rest, n + 1, count, config, maximumLevel)
        case Failed => Failed
        case Parsed(nodes, rest') => Parsed([levels] + nodes, rest')
  }

  ghost predicate NewEntries(list: seq<nat>, n: nat, count: nat, seen: seq<nat>) {
    && Distinct(list)
    && forall i :: 0 <= i < |list| ==> list[i] < count && list[i] != n && list[i] !in seen
  }

  lemma {:induction false} ParseNeighborsSound(bytes: seq<byte>, degree: nat, n: nat, count: nat, seen: seq<nat>)
    requires ParseNeighbors(bytes, degree, n, count, seen).Parsed?
    ensures var r := ParseNeighbors(bytes, degree, n, count, seen);
            NewEntries(r.value, n, count, seen) && bytes == EncodeInts(r.value, 4) + r.rest
    decreases degree
  {
    hide LittleEndian, Value, Power, ParseInt;
    if degree > 0 {
      ParseIntSound(bytes, 4);
      var head := ParseInt(bytes, 4);
      ParseNeighborsSound(head.rest, degree - 1, n, count, seen + [head.value]);
      var tail := ParseNeighbors(head.rest, degree - 1, n, count, seen + [head.value]);
      ConsParts(head.value, tail.value);
      Regroup(LittleEndian(head.value, 4), EncodeInts(tail.value, 4), tail.rest);
      forall i | 0 <= i < |tail.value| ensures tail.value[i] != head.value && tail.value[i] !in seen {
        assert head.value in seen + [head.value];
      }
    }
  }

  lemma {:induction false} ParseNeighborsComplete(list: seq<nat>, n: nat, count: nat, seen: seq<nat>, rest: seq<byte>)
    requires NewEntries(list, n, count, seen) && count <= Power(4)
    ensures ParseNeighbors(EncodeInts(list, 4) + rest, |list|, n, count, seen) == Parsed(list, rest)
    decreases |list|
  {
    hide LittleEndian, Value, Power, ParseInt;
    if list == [] {
      assert [] + rest == rest;
    } else {
      var tail := EncodeInts(list[1..], 4) + rest;
      Regroup(LittleEndian(list[0], 4), EncodeInts(list[1..], 4), rest);
      ParseIntComplete(list[0], 4, tail);
      ParseNeighborsComplete(list[1..], n, count, seen + [list[0]], rest);
      HeadAndTail(list);
    }
  }

  lemma ParseListSound(bytes: seq<byte>, n: nat, count: nat, limit: nat)
    requires ParseList(bytes, n, count, limit).Parsed?
    ensures var r := ParseList(bytes, n, count, limit);
            ListFits(r.value, n, count, limit) && bytes == EncodeList(r.value) + r.rest
  {
    hide LittleEndian, Value, Power, ParseNeighbors, ParseInt;
    ParseIntSound(bytes, 4);
    var head := ParseInt(bytes, 4);
    ParseNeighborsSound(head.rest, head.value, n, count, []);
    var r := ParseList(bytes, n, count, limit);
    Regroup(LittleEndian(|r.value|, 4), EncodeInts(r.value, 4), r.rest);
  }

  lemma ParseListComplete(list: seq<nat>, n: nat, count: nat, limit: nat, rest: seq<byte>)
    requires ListFits(list, n, count, limit) && count <= Power(4)
    ensures ParseList(EncodeList(list) + rest, n, count, limit) == Parsed(list, rest)
  {
    var tail := EncodeInts(list, 4) + rest;
    assert EncodeList(list) + rest == LittleEndian(|list|, 4) + tail;
    ParseIntComplete(|list|, 4, tail);
    ParseNeighborsComplete(list, n, count, [], rest);
  }

  /** Lists that fit layers `layer..`. */
  ghost predicate ListsFit(lists: Levels, n: nat, count: nat, config: Config, layer: nat) {
    forall i :: 0 <= i < |lists| ==> ListFits(lists[i], n, count, MaximumConnections(config, layer + i))
  }

  lemma {:induction false} ParseListsSound(bytes: seq<byte>, n: nat, count: nat, config: Config, layer: nat,
                                           levels: nat)
    requires layer <= levels && ParseLists(bytes, n, count, config, layer, levels).Parsed?
    ensures var r := ParseLists(bytes, n, count, config, layer, levels);
            ListsFit(r.value, n, count, config, layer) && bytes == EncodeLists(r.value) + r.rest
    decreases levels - layer
  {
    hide LittleEndian, Value, Power, ParseInt;
    if layer < levels {
      var limit := MaximumConnections(config, layer);
      ParseListSound(bytes, n, count, limit);
      var head := ParseList(bytes, n, count, limit);
      ParseListsSound(head.rest, n, count, config, layer + 1, levels);
      var tail := ParseLists(head.rest, n, count, config, layer + 1, levels);
      var r := ParseLists(bytes, n, count, config, layer, levels);
      ConsParts(head.value, tail.value);
      Regroup(EncodeList(head.value), EncodeLists(tail.value), tail.rest);
      forall i | 0 <= i < |r.value|
        ensures ListFits(r.value[i], n, count, MaximumConnections(config, layer + i))
      {
        if i > 0 { assert ListFits(tail.value[i - 1], n, count, MaximumConnections(config, layer + 1 + (i - 1))); }
      }
    }
  }

  lemma {:induction false} ParseListsComplete(lists: Levels, n: nat, count: nat, config: Config, layer: nat,
                                              rest: seq<byte>)
    requires ListsFit(lists, n, count, config, layer) && count <= Power(4)
    ensures ParseLists(EncodeLists(lists) + rest, n, count, config, layer, layer + |lists|) == Parsed(lists, rest)
    decreases |lists|
  {
    hide LittleEndian, Value, Power, ParseInt;
    if lists == [] {
      assert [] + rest == rest;
    } else {
      var tail := EncodeLists(lists[1..]) + rest;
      Regroup(EncodeList(lists[0]), EncodeLists(lists[1..]), rest);
      assert ListFits(lists[0], n, count, MaximumConnections(config, layer + 0));
      ParseListComplete(lists[0], n, count, MaximumConnections(config, layer), tail);
      forall i | 0 <= i < |lists[1..]|
        ensures ListFits(lists[1..][i], n, count, MaximumConnections(config, layer + 1 + i))
      {
        assert ListFits(lists[i + 1], n, count, MaximumConnections(config, layer + (i + 1)));
      }
      ParseListsComplete(lists[1..], n, count, config, layer + 1, rest);
      HeadAndTail(lists);
    }
  }

  ghost predicate NodeFits(levels: Levels, n: nat, count: nat, config: Config, maximumLevel: nat) {
    && 0 < |levels| <= MAXIMUM_LEVEL + 1 && |levels| <= maximumLevel + 1
    && ListsFit(levels, n, count, config, 0)
  }

  lemma ParseNodeSound(bytes: seq<byte>, n: nat, count: nat, config: Config, maximumLevel: nat)
    requires ParseNode(bytes, n, count, config, maximumLevel).Parsed?
    ensures var r := ParseNode(bytes, n, count, config, maximumLevel);
            NodeFits(r.value, n, count, config, maximumLevel) && bytes == EncodeNode(r.value) + r.rest
  {
    hide LittleEndian, Value, Power, ParseLists, ParseInt, ListsFit;
    ParseIntSound(bytes, 4);
    var head := ParseInt(bytes, 4);
    ParseListsSound(head.rest, n, count, config, 0, head.value + 1);
    var r := ParseNode(bytes, n, count, config, maximumLevel);
    Regroup(LittleEndian(|r.value| - 1, 4), EncodeLists(r.value), r.rest);
  }

  lemma ParseNodeComplete(levels: Levels, n: nat, count: nat, config: Config, maximumLevel: nat, rest: seq<byte>)
    requires NodeFits(levels, n, count, config, maximumLevel) && count <= Power(4)
    ensures ParseNode(EncodeNode(levels) + rest, n, count, config, maximumLevel) == Parsed(levels, rest)
  {
    var tail := EncodeLists(levels) + rest;
    assert EncodeNode(levels) + rest == LittleEndian(|levels| - 1, 4) + tail;
    Powers();
    ParseIntComplete(|levels| - 1, 4, tail);
    ParseListsComplete(levels, n, count, config, 0, rest);
  }

  /** Nodes numbered from `n`. */
  ghost predicate NodesFit(nodes: seq<Levels>, n: nat, count: nat, config: Config, maximumLevel: nat) {
    forall i :: 0 <= i < |nodes| ==> NodeFits(nodes[i], n + i, count, config, maximumLevel)
  }

  lemma {:induction false} ParseNodesSound(bytes: seq<byte>, n: nat, count: nat, config: Config, maximumLevel: nat)
    requires n <= count && ParseNodes(bytes, n, count, config, maximumLevel).Parsed?
    ensures var r := ParseNodes(bytes, n, count, config, maximumLevel);
            NodesFit(r.value, n, count, config, maximumLevel) && bytes == EncodeNodes(r.value) + r.rest
    decreases count - n
  {
    hide LittleEndian, Value, Power, ParseInt;
    if n < count {
      ParseNodeSound(bytes, n, count, config, maximumLevel);
      var head := ParseNode(bytes, n, count, config, maximumLevel);
      ParseNodesSound(head.rest, n + 1, count, config, maximumLevel);
      var tail := ParseNodes(head.rest, n + 1, count, config, maximumLevel);
      var r := ParseNodes(bytes, n, count, config, maximumLevel);
      ConsParts(head.value, tail.value);
      Regroup(EncodeNode(head.value), EncodeNodes(tail.value), tail.rest);
      forall i | 0 <= i < |r.value| ensures NodeFits(r.value[i], n + i, count, config, maximumLevel) {
        if i > 0 { assert NodeFits(tail.value[i - 1], n + 1 + (i - 1), count, config, maximumLevel); }
      }
    }
  }

  lemma {:induction false} ParseNodesComplete(nodes: seq<Levels>, n: nat, count: nat, config: Config,
                                              maximumLevel: nat, rest: seq<byte>)
    requires n + |nodes| == count <= Power(4) && NodesFit(nodes, n, count, config, maximumLevel)
    ensures ParseNodes(EncodeNodes(nodes) + rest, n, count, config, maximumLevel) == Parsed(nodes, rest)
    decreases |nodes|
  {
    hide LittleEndian, Value, Power, ParseInt;
    if nodes == [] {
      assert [] + rest == rest;
    } else {
      var tail := EncodeNodes(nodes[1..]) + rest;
      Regroup(EncodeNode(nodes[0]), EncodeNodes(nodes[1..]), rest);
      assert NodeFits(nodes[0], n + 0, count, config, maximumLevel);
      ParseNodeComplete(nodes[0], n, count, config, maximumLevel, tail);
      forall i | 0 <= i < |nodes[1..]| ensures NodeFits(nodes[1..][i], n + 1 + i, count, config, maximumLevel) {
        assert NodeFits(nodes[i + 1], n + (i + 1), count, config, maximumLevel);
      }
      ParseNodesComplete(nodes[1..], n + 1, count, config, maximumLevel, rest);
      HeadAndTail(nodes);
    }
  }
}
