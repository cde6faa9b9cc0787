/** Whole version-3 files: header, checksum, payload, and how they relate to index states. */
module HnswFile {
  import opened Numbers
  import opened Wrappers
  import opened Bytes
  import opened Checksum
  import opened Encoding
  import opened Ranking
  import opened Configuration
  import opened GraphLinks
  import opened HnswState
  import opened HnswFormat
  import opened StoredRows

  // ---------- Payload ----------

  /** What the payloads of all versions start with. */
  datatype Body = Body(ids: seq<VectorId>, vectors: seq<Vector>, nodes: seq<Levels>)

  function EncodeBody(body: Body): seq<byte>
    requires forall i :: 0 <= i < |body.nodes| ==> |body.nodes[i]| > 0
  {
    EncodeInts(body.ids, 8) + (EncodeRows(body.vectors) + EncodeNodes(body.nodes))
  }

  function ParseBody(bytes: seq<byte>, count: nat, config: Config, maximumLevel: nat, p: Platform): (r: Parsed<Body>)
    ensures r.Parsed? ==> |r.value.nodes| == |r.value.ids| == count
    ensures r.Parsed? ==> forall i :: 0 <= i < |r.value.nodes| ==> |r.value.nodes[i]| > 0
  {
    match ParseInts(bytes, count, 8)
    case Failed => Failed
    case Parsed(values, rest1) =>
      var ids := AsIds(values, bytes, count);
      if exists i, j :: 0 <= i < j < |ids| && ids[i] == ids[j] then Failed else
        match ParseRows(rest1, count, config.dimension, p)
        case Failed => Failed
        case Parsed(vectors, rest2) =>
          match ParseNodes(rest2, 0, count, config, maximumLevel)
          case Failed => Failed
          case Parsed(nodes, rest3) => Parsed(Body(ids, vectors, nodes), rest3)
  }

  ghost predicate BodyFits(body: Body, count: nat, config: Config, maximumLevel: nat, p: Platform) {
    && |body.ids| == |body.vectors| == |body.nodes| == count
    && Distinct(body.ids)
    && (forall i :: 0 <= i < |body.vectors| ==> VectorOk(config, p, body.vectors[i]))
    && NodesFit(body.nodes, 0, count, config, maximumLevel)
  }

  lemma ParseBodySound(bytes: seq<byte>, count: nat, config: Config, maximumLevel: nat, p: Platform)
    requires ParseBody(bytes, count, config, maximumLevel, p).Parsed?
    ensures var r := ParseBody(bytes, count, config, maximumLevel, p);
            BodyFits(r.value, count, config, maximumLevel, p) && bytes == EncodeBody(r.value) + r.rest
  {
    hide ParseInts, ParseRows, ParseNodes, EncodeRows, EncodeNodes, EncodeInts;
    ParseIntsSound(bytes, count, 8);
    var ids := ParseInts(bytes, count, 8);
    ParseRowsSound(ids.rest, count, config.dimension, p);
    var vectors := ParseRows(ids.rest, count, config.dimension, p);
    ParseNodesSound(vectors.rest, 0, count, config, maximumLevel);
  }

  lemma ParseBodyComplete(body: Body, count: nat, config: Config, maximumLevel: nat, p: Platform,
                          rest: seq<byte>)
    requires BodyFits(body, count, config, maximumLevel, p) && count <= UINT32_MAX
    requires forall i :: 0 <= i < |body.nodes| ==> |body.nodes[i]| > 0
    ensures ParseBody(EncodeBody(body) + rest, count, config, maximumLevel, p) == Parsed(body, rest)
  {
    Powers();
    var rest2 := EncodeNodes(body.nodes) + rest;
    var rest1 := EncodeRows(body.vectors) + rest2;
    ParseIntsComplete(body.ids, 8, rest1);
    ParseRowsComplete(body.vectors, config.dimension, p, rest2);
    ParseNodesComplete(body.nodes, 0, count, config, maximumLevel, rest);
    assert EncodeBody(body) + rest == EncodeInts(body.ids, 8) + rest1;
  }

  /** What the payload holds, apart from lengths and counts. */
  datatype Parts = Parts(ids: seq<VectorId>, vectors: seq<Vector>, nodes: seq<Levels>, flags: seq<nat>, text: seq<byte>)

  /** Tombstone flags that are set. */
  function Deleted(flags: seq<nat>): (n: nat)
    ensures n <= |flags|
  {
    if flags == [] then 0 else (if flags[0] == 0 then 0 else 1) + Deleted(flags[1..])
  }

  function EncodeText(text: seq<byte>): seq<byte> {
    LittleEndian(|text|, 4) + text
  }

  /** The generator's text with its length; it must reach to the end. */
  function ParseText(bytes: seq<byte>): Option<seq<byte>> {
    match ParseInt(bytes, 4)
    case Failed => None
    case Parsed(length, text) =>
      if length == 0 || length > MAXIMUM_TEXT || length != |text| then None else Some(text)
  }

  lemma ParseTextExact(bytes: seq<byte>, text: seq<byte>)
    ensures ParseText(bytes) == Some(text) <==> bytes == EncodeText(text) && 0 < |text| <= MAXIMUM_TEXT
  {
    Powers();
    if ParseText(bytes) == Some(text) {
      ParseIntSound(bytes, 4);
    }
    if bytes == EncodeText(text) && 0 < |text| <= MAXIMUM_TEXT {
      ParseIntComplete(|text|, 4, text);
    }
  }

  function EncodeTail(flags: seq<nat>, text: seq<byte>): seq<byte> {
    LittleEndian(|flags| - Deleted(flags), 8)
    + (EncodeInts(flags, 1) + EncodeText(text))
  }

  function BodyOf(parts: Parts): Body {
    Body(parts.ids, parts.vectors, parts.nodes)
  }

  function EncodeParts(parts: Parts): seq<byte>
    requires forall i :: 0 <= i < |parts.nodes| ==> |parts.nodes[i]| > 0
  {
    EncodeInts(parts.ids, 8)
    + (EncodeRows(parts.vectors) + (EncodeNodes(parts.nodes) + EncodeTail(parts.flags, parts.text)))
  }

  /** Live count, tombstone flags and generator text; the text must reach to the end. */
  function ParseTail(bytes: seq<byte>, count: nat): Option<(seq<nat>, seq<byte>)> {
    match ParseInt(bytes, 8)
    case Failed => None
    case Parsed(live, rest) =>
      if live > count then None else
        match ParseInts(rest, count, 1)
        case Failed => None
        case Parsed(flags, rest') =>
          if (exists i :: 0 <= i < |flags| && flags[i] > 1) || count - Deleted(flags) != live then None else
            match ParseText(rest')
            case None => None
            case Some(text) => Some((flags, text))
  }

  function ParseParts(bytes: seq<byte>, count: nat, config: Config, maximumLevel: nat, p: Platform): Option<Parts> {
    match ParseBody(bytes, count, config, maximumLevel, p)
    case Failed => None
    case Parsed(body, rest) =>
      match ParseTail(rest, count)
      case None => None
      case Some((flags, text)) => Some(Parts(body.ids, body.vectors, body.nodes, flags, text))
  }

  ghost predicate TailFits(flags: seq<nat>, text: seq<byte>, count: nat) {
    && |flags| == count && (forall i :: 0 <= i < |flags| ==> flags[i] <= 1)
    && 0 < |text| <= MAXIMUM_TEXT
  }

  ghost predicate PartsFit(parts: Parts, count: nat, config: Config, maximumLevel: nat, p: Platform) {
    && BodyFits(BodyOf(parts), count, config, maximumLevel, p)
    && TailFits(parts.flags, parts.text, count)
  }

  lemma ParseTailSound(bytes: seq<byte>, count: nat)
    requires ParseTail(bytes, count).Some?
    ensures var (flags, text) := ParseTail(bytes, count).value;
            TailFits(flags, text, count) && bytes == EncodeTail(flags, text)
  {
    ParseIntSound(bytes, 8);
    var live := ParseInt(bytes, 8);
    ParseIntsSound(live.rest, count, 1);
    var flags := ParseInts(live.rest, count, 1);
    ParseTextExact(flags.rest, ParseTail(bytes, count).value.1);
  }

  lemma ParseTailComplete(flags: seq<nat>, text: seq<byte>, count: nat)
    requires TailFits(flags, text, count) && count <= UINT32_MAX
    ensures ParseTail(EncodeTail(flags, text), count) == Some((flags, text))
  {
    Powers();
    var live := count - Deleted(flags);
    var rest := EncodeInts(flags, 1) + EncodeText(text);
    ParseIntComplete(live, 8, rest);
    ParseIntsComplete(flags, 1, EncodeText(text));
    ParseTextExact(EncodeText(text), text);
  }

  lemma ParsePartsSound(bytes: seq<byte>, count: nat, config: Config, maximumLevel: nat, p: Platform)
    requires ParseParts(bytes, count, config, maximumLevel, p).Some?
    ensures var parts := ParseParts(bytes, count, config, maximumLevel, p).value;
            PartsFit(parts, count, config, maximumLevel, p) && bytes == EncodeParts(parts)
  {
    hide ParseBody, ParseTail, EncodeTail, EncodeRows, EncodeNodes, EncodeInts, BodyFits;
    ParseBodySound(bytes, count, config, maximumLevel, p);
    var body := ParseBody(bytes, count, config, maximumLevel, p);
    ParseTailSound(body.rest, count);
    PartsJoin(ParseParts(bytes, count, config, maximumLevel, p).value);
  }

  lemma PartsJoin(parts: Parts)
    requires forall i :: 0 <= i < |parts.nodes| ==> |parts.nodes[i]| > 0
    ensures EncodeParts(parts) == EncodeBody(BodyOf(parts)) + EncodeTail(parts.flags, parts.text)
  {
    hide EncodeTail, EncodeRows, EncodeNodes, EncodeInts;
    var a, b, c, d := EncodeInts(parts.ids, 8), EncodeRows(parts.vectors), EncodeNodes(parts.nodes),
                      EncodeTail(parts.flags, parts.text);
    assert a + (b + (c + d)) == a + (b + c) + d;
  }

  lemma ParsePartsComplete(parts: Parts, count: nat, config: Config, maximumLevel: nat, p: Platform)
    requires PartsFit(parts, count, config, maximumLevel, p) && count <= UINT32_MAX
    ensures ParseParts(EncodeParts(parts), count, config, maximumLevel, p) == Some(parts)
  {
    hide ParseBody, ParseTail, EncodeTail, EncodeBody, EncodeParts, BodyFits;
    PartsHaveLevels(parts, count, config, maximumLevel, p);
    PartsJoin(parts);
    ParseBodyComplete(BodyOf(parts), count, config, maximumLevel, p, EncodeTail(parts.flags, parts.text));
    ParseTailComplete(parts.flags, parts.text, count);
  }

  lemma PartsHaveLevels(parts: Parts, count: nat, config: Config, maximumLevel: nat, p: Platform)
    requires PartsFit(parts, count, config, maximumLevel, p)
    ensures forall i :: 0 <= i < |parts.nodes| ==> |parts.nodes[i]| > 0
  {
  }

  // ---------- Header ----------

  /** Bytes of each header field. */
  function WidthOf(i: int): nat {
    if i < 4 || i == 10 || i == 11 then 4 else 8
  }

  function Widths(): (r: seq<nat>)
    ensures |r| == 15
  {
    seq(15, i => WidthOf(i))
  }

  /** Header fields in file order, without magic and checksum. */
  function FieldOf(h: Header, i: nat): nat
    requires i < 15
  {
    match i
    case 0 => h.version
    case 1 => HEADER_SIZE
    case 2 => ENDIAN_MARKER
    case 3 => NORMALIZED_COSINE
    case 4 => h.dimension
    case 5 => h.count
    case 6 => h.maxConnections
    case 7 => h.efConstruction
    case 8 => h.efSearch
    case 9 => h.seed
    case 10 => h.selection
    case 11 => 0
    case 12 => h.maximumLevel
    case 13 => h.entryPoint
    case _ => h.payloadBytes
  }

  function Fields(h: Header): (r: seq<nat>)
    ensures |r| == |Widths()|
  {
    seq(15, i requires 0 <= i < 15 => FieldOf(h, i))
  }

  function HeaderOf(v: seq<nat>): Header
    requires |v| == |Widths()|
  {
    Header(v[0], v[4], v[5], v[6], v[7], v[8], v[9], v[10], v[12], v[13], v[14])
  }

  /** The part of the header that the checksum covers. */
  function HeaderBytes(h: Header): (r: seq<byte>)
    ensures |r| == 104
  {
    assert Total(Widths()) == 96 by { TotalOfWidths(); }
    MAGIC + EncodeFields(Fields(h), Widths())
  }

  lemma TotalOfWidths()
    ensures Total(Widths()) == 96
  {
    hide Total;
    var a, b, c, d := [4, 4, 4, 4], [8, 8, 8, 8, 8, 8], [4, 4], [8, 8, 8];
    TotalOfEqual(a, 4);
    TotalOfEqual(b, 8);
    TotalOfEqual(c, 4);
    TotalOfEqual(d, 8);
    TotalJoin(a, b + (c + d));
    TotalJoin(b, c + d);
    TotalJoin(c, d);
    assert Widths() == a + (b + (c + d));
  }

  /** `read_header` accepts versions one to three; only version three is parsed further here. */
  function ReadHeader(bytes: seq<byte>): Option<Header> {
    if |bytes| < HEADER_SIZE || bytes[..8] != MAGIC then None else
      match ParseFields(bytes[8..104], Widths())
      case Failed => None
      case Parsed(v, _) =>
        if 1 <= v[0] <= CURRENT_VERSION && v[1] == HEADER_SIZE && v[2] == ENDIAN_MARKER
           && v[3] == NORMALIZED_COSINE && v[11] == 0 then Some(HeaderOf(v)) else None
  }

  function StoredChecksum(bytes: seq<byte>): nat
    requires |bytes| >= HEADER_SIZE
  {
    Value(bytes[104..112])
  }

  /** Fields and header determine each other. */
  lemma FieldsInverse(h: Header, v: seq<nat>)
    requires |v| == |Widths()|
    ensures HeaderOf(Fields(h)) == h
    ensures var f := Fields(h);
            f[0] == h.version && f[1] == HEADER_SIZE && f[2] == ENDIAN_MARKER && f[3] == NORMALIZED_COSINE && f[11] == 0
    ensures v[1] == HEADER_SIZE && v[2] == ENDIAN_MARKER && v[3] == NORMALIZED_COSINE && v[11] == 0
            ==> Fields(HeaderOf(v)) == v
  {
  }

  lemma ReadHeaderSound(bytes: seq<byte>)
    requires ReadHeader(bytes).Some?
    ensures |bytes| >= HEADER_SIZE && bytes[..104] == HeaderBytes(ReadHeader(bytes).value)
    ensures FieldsFit(Fields(ReadHeader(bytes).value), Widths())
  {
    TotalOfWidths();
    hide EncodeFields, ParseFields, Fields, Total, HeaderOf, FieldsFit;
    ParseFieldsExact(bytes[8..104], Widths());
    var v := ParseFields(bytes[8..104], Widths()).value;
    FieldsInverse(HeaderOf(v), v);
    assert bytes[..104] == bytes[..8] + bytes[8..104];
  }

  lemma ReadHeaderComplete(h: Header, rest: seq<byte>)
    requires FieldsFit(Fields(h), Widths()) && 1 <= h.version <= CURRENT_VERSION && |rest| >= 8
    ensures ReadHeader(HeaderBytes(h) + rest) == Some(h)
  {
    hide EncodeFields, ParseFields, Total, HeaderOf, Fields;
    TotalOfWidths();
    ParseFieldsComplete(Fields(h), Widths(), []);
    FieldsInverse(h, Fields(h));
    Slices(MAGIC, EncodeFields(Fields(h), Widths()), rest);
    assert EncodeFields(Fields(h), Widths()) + [] == EncodeFields(Fields(h), Widths());
  }

  lemma Slices(a: seq<byte>, b: seq<byte>, c: seq<byte>)
    ensures (a + b + c)[..|a|] == a && (a + b + c)[|a|..|a| + |b|] == b
  {
  }

  // ---------- Size bounds ----------

  /** Bytes of IDs and vectors. */
  function FixedBytes(h: Header): nat {
    h.count * 8 + h.count * h.dimension * 4
  }

  /** Bytes of an empty generator text, the live count and the flags. */
  function TailBytes(h: Header): nat {
    4 + (8 + h.count)
  }

  function MinimumPayload(h: Header): nat {
    FixedBytes(h) + h.count * 8 + TailBytes(h) + 1
  }

  /** A node on all 64 levels with every list as long as on layer 0. */
  function LargestNode(maxConnections: nat): nat {
    4 + (MAXIMUM_LEVEL + 1) * (4 + maxConnections * 2 * 4)
  }

  /** The loader's worst case. */
  function MaximumPayload(h: Header): nat {
    FixedBytes(h) + h.count * LargestNode(h.maxConnections) + TailBytes(h) + MAXIMUM_TEXT
  }

  /** The checks on fields that do not depend on the version. */
  predicate FieldsOk(h: Header) {
    && h.dimension > 0 && 2 <= h.maxConnections <= UINT32_MAX / 2
    && h.efConstruction >= h.maxConnections && h.efSearch > 0 && h.selection <= 1
    && h.count <= UINT32_MAX && h.maximumLevel <= MAXIMUM_LEVEL
  }

  predicate EntryFieldsOk(h: Header) {
    if h.count == 0 then h.entryPoint == EMPTY_ENTRY && h.maximumLevel == 0 else h.entryPoint < h.count
  }

  /** `validate_header`, with its checked 64-bit arithmetic. */
  predicate HeaderOk(h: Header, fileBytes: nat) {
    && FieldsOk(h) && EntryFieldsOk(h)
    && MaximumPayload(h) <= UINT64_MAX
    && MinimumPayload(h) <= h.payloadBytes <= MaximumPayload(h)
    && HEADER_SIZE + h.payloadBytes <= UINT64_MAX
    && HEADER_SIZE + h.payloadBytes == fileBytes
  }

  function ConfigOf(h: Header): Config {
    Config(h.dimension, h.maxConnections, h.efConstruction, h.efSearch, h.seed,
           if h.selection == 0 then Simple else Heuristic)
  }

  // ---------- Graph checks and assembly ----------

  function MaxLevelOf(nodes: seq<Levels>): nat
    requires forall i :: 0 <= i < |nodes| ==> |nodes[i]| > 0
  {
    if nodes == [] then 0 else Most(|nodes[0]| - 1, MaxLevelOf(nodes[1..]))
  }

  /** Every neighbour is present on the layer that refers to it. */
  ghost predicate AllPresent(nodes: seq<Levels>) {
    forall n, c, i :: 0 <= n < |nodes| && 0 <= c < |nodes[n]| && 0 <= i < |nodes[n][c]| ==>
      nodes[n][c][i] < |nodes| && c < |nodes[nodes[n][c][i]]|
  }

  ghost predicate GraphChecks(nodes: seq<Levels>, h: Header)
    requires forall i :: 0 <= i < |nodes| ==> |nodes[i]| > 0
  {
    && MaxLevelOf(nodes) == h.maximumLevel
    && (nodes != [] ==> h.entryPoint < |nodes| && |nodes[h.entryPoint]| - 1 == h.maximumLevel)
    && AllPresent(nodes)
  }

  function GraphOf(nodes: seq<Levels>, flags: seq<nat>): (g: Graph)
    requires |nodes| == |flags|
    ensures |g| == |nodes| && forall n :: 0 <= n < |g| ==> g[n] == Node(nodes[n], flags[n] != 0)
  {
    seq(|nodes|, n requires 0 <= n < |nodes| => Node(nodes[n], flags[n] != 0))
  }

  function StateOf(h: Header, parts: Parts, random: Rng): State
    requires |parts.nodes| == |parts.flags|
  {
    State(parts.vectors, parts.ids, GraphOf(parts.nodes, parts.flags), IdMap(parts.ids), random,
          if parts.ids == [] then 0 else h.entryPoint, h.maximumLevel, Deleted(parts.flags))
  }

  // ---------- Loading ----------

  /** `Legacy` stands for the two older versions. */
  datatype LoadResult = Loaded(config: Config, state: State) | Legacy | Invalid

  /** The bytes the checksum covers. */
  function Covered(bytes: seq<byte>): seq<byte>
    requires |bytes| >= HEADER_SIZE
  {
    bytes[..104] + bytes[HEADER_SIZE..]
  }

  ghost function Load(bytes: seq<byte>, p: Platform, t: TextCodec): LoadResult {
    match ReadHeader(bytes)
    case None => Invalid
    case Some(h) =>
      if h.version != CURRENT_VERSION then Legacy
      else if !HeaderOk(h, |bytes|) then Invalid
      else LoadPayload(bytes, h, p, t)
  }

  /** Everything after the header, and the checksum comparison that comes last. */
  ghost function LoadPayload(bytes: seq<byte>, h: Header, p: Platform, t: TextCodec): (r: LoadResult)
    requires |bytes| >= HEADER_SIZE
    ensures !r.Legacy?
    ensures r.Loaded? ==> Hash(FNV_OFFSET, Covered(bytes)) == StoredChecksum(bytes)
  {
    hide ParseParts; hide GraphChecks; hide Hash;
    match ParseParts(bytes[HEADER_SIZE..], h.count, ConfigOf(h), h.maximumLevel, p)
    case None => Invalid
    case Some(parts) =>
      PartsAreShaped(bytes[HEADER_SIZE..], h.count, ConfigOf(h), h.maximumLevel, p);
      if !GraphChecks(parts.nodes, h) || t.parse(parts.text).None?
         || Hash(FNV_OFFSET, Covered(bytes)) != StoredChecksum(bytes) then Invalid
      else Loaded(ConfigOf(h), StateOf(h, parts, t.parse(parts.text).value))
  }

  lemma PartsAreShaped(bytes: seq<byte>, count: nat, config: Config, maximumLevel: nat, p: Platform)
    requires ParseParts(bytes, count, config, maximumLevel, p).Some?
    ensures var parts := ParseParts(bytes, count, config, maximumLevel, p).value;
            && |parts.nodes| == |parts.flags|
            && forall i :: 0 <= i < |parts.nodes| ==> |parts.nodes[i]| > 0
  {
  }

  /** A file that loads as version three carries the checksum of everything else in it. */
  lemma LoadedMeansChecksum(bytes: seq<byte>, p: Platform, t: TextCodec)
    requires Load(bytes, p, t).Loaded?
    ensures |bytes| >= HEADER_SIZE && Hash(FNV_OFFSET, Covered(bytes)) == StoredChecksum(bytes)
    ensures ReadHeader(bytes).Some? && ReadHeader(bytes).value.version == CURRENT_VERSION
  {
    hide Hash, LoadPayload, HeaderOk;
  }

  /** One substitution changes either the covered bytes or the stored checksum, never both. */
  lemma SubstitutionBreaksChecksum(bytes: seq<byte>, i: nat, b: byte)
    requires |bytes| >= HEADER_SIZE && i < |bytes| && b != bytes[i]
    requires Hash(FNV_OFFSET, Covered(bytes)) == StoredChecksum(bytes)
    ensures Hash(FNV_OFFSET, Covered(bytes[i := b])) != StoredChecksum(bytes[i := b])
  {
    hide Hash, Value;
    var changed := bytes[i := b];
    if i < 104 {
      assert Covered(changed) == Covered(bytes)[i := b];
      assert changed[104..112] == bytes[104..112];
      SubstitutionChangesHash(FNV_OFFSET, Covered(bytes), i, b);
    } else if i >= 112 {
      assert Covered(changed) == Covered(bytes)[i - 8 := b];
      assert changed[104..112] == bytes[104..112];
      SubstitutionChangesHash(FNV_OFFSET, Covered(bytes), i - 8, b);
    } else {
      assert Covered(changed) == Covered(bytes);
      LittleEndianOfValue(bytes[104..112]);
      LittleEndianOfValue(changed[104..112]);
      assert changed[104..112][i - 104] == b && bytes[104..112][i - 104] == bytes[i];
    }
  }

  /** Outside bytes 8 to 11 a substitution leaves the version field alone. */
  lemma SameVersion(bytes: seq<byte>, i: nat, b: byte)
    requires i < |bytes| && !(8 <= i < 12)
    requires ReadHeader(bytes).Some? && ReadHeader(bytes[i := b]).Some?
    ensures ReadHeader(bytes[i := b]).value.version == ReadHeader(bytes).value.version
  {
  }

  lemma VersionField(bytes: seq<byte>)
    requires ReadHeader(bytes).Some?
    ensures |bytes| >= HEADER_SIZE && ReadHeader(bytes).value.version == Value(bytes[8..12])
  {
    hide HeaderOf;
    assert bytes[8..104][..4] == bytes[8..12];
    FirstField(bytes[8..104], Widths());
    FieldsInverse(ReadHeader(bytes).value, ParseFields(bytes[8..104], Widths()).value);
  }

  lemma FirstField(bytes: seq<byte>, widths: seq<nat>)
    requires widths != [] && widths[0] <= |bytes| && ParseFields(bytes, widths).Parsed?
    ensures ParseFields(bytes, widths).value[0] == Value(bytes[..widths[0]])
  {
  }

  /** The version field on its own: its four bytes, and the rest of the header. */
  lemma VersionApart(bytes: seq<byte>)
    requires |bytes| >= HEADER_SIZE
    ensures ReadHeader(bytes) == HeaderFrom(bytes[..8], Value(bytes[8..12]), bytes[12..104])
  {
    hide HeaderOf, Value;
    var x := bytes[8..104];
    assert x[..4] == bytes[8..12] && x[4..] == bytes[12..104];
    assert Widths()[0] == 4;
    OneParsedFirst(x, Widths());
  }

  lemma OneParsedFirst(bytes: seq<byte>, widths: seq<nat>)
    requires widths != [] && widths[0] <= |bytes|
    ensures ParseFields(bytes, widths)
            == match ParseFields(bytes[widths[0]..], widths[1..])
               case Failed => Failed
               case Parsed(vs, rest) => Parsed([Value(bytes[..widths[0]])] + vs, rest)
  {
  }

  function HeaderFrom(magic: seq<byte>, version: nat, rest: seq<byte>): Option<Header> {
    if magic != MAGIC then None else
      match ParseFields(rest, Widths()[1..])
      case Failed => None
      case Parsed(v, _) =>
        if 1 <= version <= CURRENT_VERSION && v[0] == HEADER_SIZE && v[1] == ENDIAN_MARKER
           && v[2] == NORMALIZED_COSINE && v[10] == 0 then Some(HeaderOf([version] + v)) else None
  }

  lemma VersionByte(x: seq<byte>, i: nat, b: byte)
    requires |x| == 4 && i < 4 && b != x[i] && Value(x) == CURRENT_VERSION
    ensures if i == 0 then Value(x[i := b]) == b && b != CURRENT_VERSION else Value(x[i := b]) > CURRENT_VERSION
  {
    FourBytes(x);
    FourBytes(x[i := b]);
  }

  function FourDigits(a: nat, b: nat, c: nat, d: nat): nat {
    a + 256 * (b + 256 * (c + 256 * d))
  }

  lemma FourBytes(x: seq<byte>)
    requires |x| == 4
    ensures Value(x) == FourDigits(x[0], x[1], x[2], x[3])
  {
    assert x[1..][1..] == x[2..] && x[2..][1..] == x[3..] && x[3..][1..] == [];
    assert Value([]) == 0;
    assert Value(x[3..]) == x[3];
    assert Value(x[2..]) == FourDigits(x[2], x[3], 0, 0);
  }

  /** A substitution in the version field makes it an older version or an unknown one. */
  lemma ChangedVersion(bytes: seq<byte>, i: nat, b: byte)
    requires |bytes| >= HEADER_SIZE && 8 <= i < 12 && b != bytes[i]
    requires ReadHeader(bytes).Some? && ReadHeader(bytes).value.version == CURRENT_VERSION
    ensures var r := ReadHeader(bytes[i := b]);
            if i == 8 && 1 <= b < CURRENT_VERSION then r.Some? && r.value.version != CURRENT_VERSION else r.None?
  {
    var changed := bytes[i := b];
    VersionField(bytes);
    VersionApart(bytes);
    VersionApart(changed);
    VersionByte(bytes[8..12], i - 8, b);
    hide ReadHeader, Value, ParseFields;
    assert changed[8..12] == bytes[8..12][i - 8 := b];
    assert changed[..8] == bytes[..8] && changed[12..104] == bytes[12..104];
  }

  /** Replacing a single byte of a loadable file always makes the loader reject it, with one exception:
      the low version byte can be turned into one of the two older versions, and then the file is taken
      for one of those. */
  lemma SubstitutionIsRejected(bytes: seq<byte>, i: nat, b: byte, p: Platform, t: TextCodec)
    requires Load(bytes, p, t).Loaded? && i < |bytes| && b != bytes[i]
    ensures Load(bytes[i := b], p, t) == if i == 8 && 1 <= b < CURRENT_VERSION then Legacy else Invalid
  {
    hide Hash, HeaderOk, ReadHeader, LoadPayload, StoredChecksum, Covered;
    LoadedMeansChecksum(bytes, p, t);
    SubstitutionBreaksChecksum(bytes, i, b);
    if 8 <= i < 12 {
      ChangedVersion(bytes, i, b);
    } else if ReadHeader(bytes[i := b]).Some? {
      SameVersion(bytes, i, b);
    }
  }
}
