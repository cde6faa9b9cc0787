/** All format versions. Version 1 ends with the nodes, and version 2 with the generator's text; neither has
    tombstones. Files of version 3 are the subject of `HnswSnapshot`. */
module HnswVersions {
  import opened Wrappers
  import opened Bytes
  import opened Checksum
  import opened Encoding
  import opened Configuration
  import opened GraphLinks
  import opened HnswState
  import opened HnswFormat
  import opened HnswFile
  import opened HnswSnapshot
  import opened StoredRows

  const FIRST_VERSION: nat := 1
  const TEXT_VERSION: nat := 2

  // ---------- Older headers ----------

  function OldMinimum(h: Header): nat {
    FixedBytes(h) + h.count * 8 + (if h.version >= TEXT_VERSION then 4 + 1 else 0)
  }

  function OldMaximum(h: Header): nat {
    FixedBytes(h) + h.count * LargestNode(h.maxConnections)
    + (if h.version >= TEXT_VERSION then 4 + MAXIMUM_TEXT else 0)
  }

  function AnyMinimum(h: Header): nat {
    if h.version == CURRENT_VERSION then MinimumPayload(h) else OldMinimum(h)
  }

  function AnyMaximum(h: Header): nat {
    if h.version == CURRENT_VERSION then MaximumPayload(h) else OldMaximum(h)
  }

  /** `validate_header` for versions 1 and 2. */
  predicate OldHeaderOk(h: Header, fileBytes: nat) {
    && FieldsOk(h) && EntryFieldsOk(h)
    && OldMaximum(h) <= UINT64_MAX
    && OldMinimum(h) <= h.payloadBytes <= OldMaximum(h)
    && HEADER_SIZE + h.payloadBytes <= UINT64_MAX
    && HEADER_SIZE + h.payloadBytes == fileBytes
  }

  // ---------- Loading ----------

  function AllLive(count: nat): (flags: seq<nat>)
    ensures |flags| == count && forall i :: 0 <= i < count ==> flags[i] == 0
  {
    seq(count, _ => 0)
  }

  function OldState(h: Header, body: Body, random: Rng): State
    requires |body.nodes| == h.count
  {
    StateOf(h, Parts(body.ids, body.vectors, body.nodes, AllLive(h.count), []), random)
  }

  /** What the checksum of a version-1 file covers: header and body, but not what follows. */
  function CoveredBody(bytes: seq<byte>, rest: seq<byte>): seq<byte>
    requires |bytes| >= HEADER_SIZE && |rest| <= |bytes| - HEADER_SIZE
  {
    bytes[..104] + bytes[HEADER_SIZE..|bytes| - |rest|]
  }

  lemma RestIsShorter(bytes: seq<byte>, h: Header, p: Platform)
    requires ParseBody(bytes, h.count, ConfigOf(h), h.maximumLevel, p).Parsed?
    ensures |ParseBody(bytes, h.count, ConfigOf(h), h.maximumLevel, p).rest| <= |bytes|
  {
    ParseBodySound(bytes, h.count, ConfigOf(h), h.maximumLevel, p);
  }

  /** A version-1 file has no generator state; the generator starts from the seed. */
  ghost function LoadFirst(bytes: seq<byte>, h: Header, body: Body, rest: seq<byte>, p: Platform)
    : Option<(Config, State)>
    requires |bytes| >= HEADER_SIZE && |rest| <= |bytes| - HEADER_SIZE && |body.nodes| == h.count
  {
    if Hash(FNV_OFFSET, CoveredBody(bytes, rest)) != StoredChecksum(bytes) then None
    else Some((ConfigOf(h), OldState(h, body, p.seeded(h.seed))))
  }

  ghost function LoadSecond(bytes: seq<byte>, h: Header, body: Body, rest: seq<byte>, t: TextCodec)
    : Option<(Config, State)>
    requires |bytes| >= HEADER_SIZE && |body.nodes| == h.count
  {
    match ParseText(rest)
    case None => None
    case Some(text) =>
      if t.parse(text).None? || Hash(FNV_OFFSET, Covered(bytes)) != StoredChecksum(bytes) then None
      else Some((ConfigOf(h), OldState(h, body, t.parse(text).value)))
  }

  ghost function LoadOld(bytes: seq<byte>, h: Header, p: Platform, t: TextCodec): Option<(Config, State)>
    requires |bytes| >= HEADER_SIZE
  {
    hide ParseBody, GraphChecks, Hash;
    if !OldHeaderOk(h, |bytes|) then None else
      match ParseBody(bytes[HEADER_SIZE..], h.count, ConfigOf(h), h.maximumLevel, p)
      case Failed => None
      case Parsed(body, rest) =>
        RestIsShorter(bytes[HEADER_SIZE..], h, p);
        if !GraphChecks(body.nodes, h) then None
        else if h.version == FIRST_VERSION then LoadFirst(bytes, h, body, rest, p)
        else LoadSecond(bytes, h, body, rest, t)
  }

  /** `load`, for every version. */
  ghost function LoadAny(bytes: seq<byte>, p: Platform, t: TextCodec): Option<(Config, State)> {
    match ReadHeader(bytes)
    case None => None
    case Some(h) =>
      if h.version != CURRENT_VERSION then LoadOld(bytes, h, p, t)
      else match Load(bytes, p, t)
           case Loaded(config, s) => Some((config, s))
           case _ => None
  }

  lemma CurrentLoads(bytes: seq<byte>, p: Platform, t: TextCodec)
    ensures Load(bytes, p, t).Loaded? ==>
      LoadAny(bytes, p, t) == Some((Load(bytes, p, t).config, Load(bytes, p, t).state))
  {
    hide HeaderOk, ReadHeader, LoadPayload;
  }

  // ---------- One reading for all versions ----------

  predicate AnyHeaderOk(h: Header, fileBytes: nat) {
    if h.version == CURRENT_VERSION then HeaderOk(h, fileBytes) else OldHeaderOk(h, fileBytes)
  }

  /** Tombstone flags and generator, as far as the version has them. */
  ghost function RestOf(rest: seq<byte>, h: Header, p: Platform, t: TextCodec): Option<(seq<nat>, Rng)> {
    if h.version == CURRENT_VERSION then
      match ParseTail(rest, h.count)
      case None => None
      case Some((flags, text)) => if t.parse(text).None? then None else Some((flags, t.parse(text).value))
    else if h.version == FIRST_VERSION then Some((AllLive(h.count), p.seeded(h.seed)))
    else
      match ParseText(rest)
      case None => None
      case Some(text) => if t.parse(text).None? then None else Some((AllLive(h.count), t.parse(text).value))
  }

  function CoveredFor(bytes: seq<byte>, h: Header, rest: seq<byte>): seq<byte>
    requires |bytes| >= HEADER_SIZE && |rest| <= |bytes| - HEADER_SIZE
  {
    if h.version == FIRST_VERSION then CoveredBody(bytes, rest) else Covered(bytes)
  }

  /** The checksum comparison that comes last. */
  ghost function Completed(bytes: seq<byte>, h: Header, body: Body, rest: seq<byte>, more: Option<(seq<nat>, Rng)>)
    : Option<(Config, State)>
    requires |bytes| >= HEADER_SIZE && |body.nodes| == h.count
  {
    if more.None? || |rest| > |bytes| - HEADER_SIZE || |more.value.0| != h.count
       || Hash(FNV_OFFSET, CoveredFor(bytes, h, rest)) != StoredChecksum(bytes) then None
    else Some((ConfigOf(h), FilledState(h, body, more.value.0, more.value.1)))
  }

  /** The loader step by step: header, body, graph, rest, checksum. */
  lemma AnyUnfolds(bytes: seq<byte>, p: Platform, t: TextCodec)
    requires ReadHeader(bytes).Some?
    ensures |bytes| >= HEADER_SIZE
    ensures var h := ReadHeader(bytes).value;
            var parsed := ParseBody(bytes[HEADER_SIZE..], h.count, ConfigOf(h), h.maximumLevel, p);
            LoadAny(bytes, p, t) ==
            if !AnyHeaderOk(h, |bytes|) || parsed.Failed? || !GraphChecks(parsed.value.nodes, h) then None
            else
              Completed(bytes, h, parsed.value, parsed.rest, RestOf(parsed.rest, h, p, t))
  {
    hide HeaderOk, OldHeaderOk, ParseBody, ParseTail, ParseText, GraphChecks, Hash, Covered, CoveredBody,
         StoredChecksum, ConfigOf;
    VersionInRange(bytes);
    var h := ReadHeader(bytes).value;
    var parsed := ParseBody(bytes[HEADER_SIZE..], h.count, ConfigOf(h), h.maximumLevel, p);
    if parsed.Parsed? {
      RestIsShorter(bytes[HEADER_SIZE..], h, p);
      TailHasFlags(parsed.rest, h.count);
    }
  }

  lemma TailHasFlags(bytes: seq<byte>, count: nat)
    ensures ParseTail(bytes, count).Some? ==> |ParseTail(bytes, count).value.0| == count
  {
  }

  /** The index that is filled in. */
  function FilledState(h: Header, body: Body, flags: seq<nat>, random: Rng): State
    requires |body.nodes| == |flags|
  {
    StateOf(h, Parts(body.ids, body.vectors, body.nodes, flags, []), random)
  }

  lemma VersionInRange(bytes: seq<byte>)
    requires ReadHeader(bytes).Some?
    ensures FIRST_VERSION <= ReadHeader(bytes).value.version <= CURRENT_VERSION
  {
  }

  // ---------- What is accepted ----------

  /** Body and header of an accepted file are in order. */
  lemma OldIsValid(h: Header, body: Body, p: Platform, random: Rng)
    requires FieldsOk(h) && FieldsFit(Fields(h), Widths()) && BodyFits(body, h.count, ConfigOf(h), h.maximumLevel, p)
    requires (forall i :: 0 <= i < |body.nodes| ==> |body.nodes[i]| > 0) && GraphChecks(body.nodes, h)
    ensures Valid(ConfigOf(h), p, OldState(h, body, random)) && OldState(h, body, random).deletedCount == 0
  {
    hide LayerOk, AllPresent, NodesFit, FieldsFit, IdMap, Tombstones, Deleted;
    var s := OldState(h, body, random);
    IdMapIsInverse(body.ids);
    FittingLinks(ConfigOf(h), body.nodes, AllLive(h.count), h.maximumLevel);
    DeletedCounts(s.graph);
    assert FlagsOf(s.graph) == AllLive(h.count);
    NoneDeleted(h.count);
    FieldsConfig(h);
    MaxLevelBounds(body.nodes);
  }

  lemma {:induction false} NoneDeleted(count: nat)
    ensures Deleted(AllLive(count)) == 0
  {
    if count > 0 {
      NoneDeleted(count - 1);
      assert AllLive(count)[1..] == AllLive(count - 1);
    }
  }

  /** Every accepted file, of whatever version, yields an index that satisfies the invariant. */
  lemma LoadAnyIsSound(bytes: seq<byte>, p: Platform, t: TextCodec)
    requires LoadAny(bytes, p, t).Some?
    ensures var (config, s) := LoadAny(bytes, p, t).value; Valid(config, p, s)
    ensures ReadHeader(bytes).value.version != CURRENT_VERSION ==> LoadAny(bytes, p, t).value.1.deletedCount == 0
  {
    hide Load, ReadHeader, Valid, ParseBody, BodyFits, GraphChecks, ConfigOf, OldState, Hash, FieldsFit, Fields,
         FieldsOk;
    var h := ReadHeader(bytes).value;
    ReadHeaderSound(bytes);
    if h.version == CURRENT_VERSION {
      LoadIsSound(bytes, p, t);
    } else {
      var parsed := ParseBody(bytes[HEADER_SIZE..], h.count, ConfigOf(h), h.maximumLevel, p);
      ParseBodySound(bytes[HEADER_SIZE..], h.count, ConfigOf(h), h.maximumLevel, p);
      OldIsValid(h, parsed.value, p, LoadAny(bytes, p, t).value.1.random);
      OldRandom(h, parsed.value, p.seeded(h.seed));
      if h.version != FIRST_VERSION {
        OldRandom(h, parsed.value, t.parse(ParseText(parsed.rest).value).value);
      }
    }
  }

  lemma OldRandom(h: Header, body: Body, random: Rng)
    requires |body.nodes| == h.count
    ensures OldState(h, body, random).random == random
  {
  }

  // ---------- Old files are what they must be ----------

  /** Header and body of an old file pass all checks. */
  ghost predicate OldAccepted(h: Header, body: Body, fileBytes: nat, p: Platform) {
    && FIRST_VERSION <= h.version < CURRENT_VERSION && FieldsFit(Fields(h), Widths()) && OldHeaderOk(h, fileBytes)
    && BodyFits(body, h.count, ConfigOf(h), h.maximumLevel, p)
    && (forall i :: 0 <= i < |body.nodes| ==> |body.nodes[i]| > 0)
    && GraphChecks(body.nodes, h)
  }

  /** A version-1 file: the checksum covers header and body, and whatever follows is never read. */
  function FirstFile(h: Header, body: Body, unread: seq<byte>): seq<byte>
    requires forall i :: 0 <= i < |body.nodes| ==> |body.nodes[i]| > 0
  {
    FileWith(h, Hash(FNV_OFFSET, HeaderBytes(h) + EncodeBody(body)), EncodeBody(body) + unread)
  }

  /** A version-2 file: body and generator text, all of it covered. */
  function SecondFile(h: Header, body: Body, text: seq<byte>): seq<byte>
    requires forall i :: 0 <= i < |body.nodes| ==> |body.nodes[i]| > 0
  {
    var payload := EncodeBody(body) + EncodeText(text);
    FileWith(h, Hash(FNV_OFFSET, HeaderBytes(h) + payload), payload)
  }

  lemma CoveredPrefix(h: Header, checksum: nat, body: seq<byte>, rest: seq<byte>)
    requires checksum <= UINT64_MAX
    ensures |FileWith(h, checksum, body + rest)| >= HEADER_SIZE + |rest|
    ensures CoveredBody(FileWith(h, checksum, body + rest), rest) == HeaderBytes(h) + body
  {
    hide HeaderBytes, LittleEndian;
    FileWithSlices(h, checksum, body + rest);
    var bytes := FileWith(h, checksum, body + rest);
    assert bytes[HEADER_SIZE..|bytes| - |rest|] == (body + rest)[..|body|];
  }

  lemma OldLoads(bytes: seq<byte>, h: Header, body: Body, rest: seq<byte>, p: Platform, t: TextCodec)
    requires ReadHeader(bytes) == Some(h) && |bytes| >= HEADER_SIZE && OldAccepted(h, body, |bytes|, p)
    requires bytes[HEADER_SIZE..] == EncodeBody(body) + rest
    ensures |rest| <= |bytes| - HEADER_SIZE
    ensures LoadAny(bytes, p, t)
            == if h.version == FIRST_VERSION then LoadFirst(bytes, h, body, rest, p)
               else LoadSecond(bytes, h, body, rest, t)
  {
    hide ReadHeader, OldHeaderOk, ParseBody, BodyFits, EncodeBody, GraphChecks, Hash, LoadFirst, LoadSecond, Covered,
         FieldsFit;
    OldCount(h, |bytes|);
    ParseBodyComplete(body, h.count, ConfigOf(h), h.maximumLevel, p, rest);
  }

  lemma OldCount(h: Header, fileBytes: nat)
    requires OldHeaderOk(h, fileBytes)
    ensures h.count <= UINT32_MAX
  {
  }

  /** Every file of this form is accepted, whatever the unread bytes are. */
  lemma FirstIsAccepted(h: Header, body: Body, unread: seq<byte>, p: Platform, t: TextCodec)
    requires forall i :: 0 <= i < |body.nodes| ==> |body.nodes[i]| > 0
    requires h.version == FIRST_VERSION && OldAccepted(h, body, HEADER_SIZE + |EncodeBody(body) + unread|, p)
    ensures LoadAny(FirstFile(h, body, unread), p, t) == Some((ConfigOf(h), OldState(h, body, p.seeded(h.seed))))
  {
    hide HeaderBytes, EncodeBody, OldHeaderOk, BodyFits, GraphChecks, Hash, FieldsFit, Fields, LoadAny, ReadHeader,
         FileWith;
    var checksum := Hash(FNV_OFFSET, HeaderBytes(h) + EncodeBody(body));
    HashFits(HeaderBytes(h) + EncodeBody(body));
    FileWithSlices(h, checksum, EncodeBody(body) + unread);
    CoveredPrefix(h, checksum, EncodeBody(body), unread);
    HeaderIsBack(h, checksum, EncodeBody(body) + unread);
    OldLoads(FirstFile(h, body, unread), h, body, unread, p, t);
  }

  lemma SecondIsAccepted(h: Header, body: Body, text: seq<byte>, p: Platform, t: TextCodec)
    requires forall i :: 0 <= i < |body.nodes| ==> |body.nodes[i]| > 0
    requires h.version == TEXT_VERSION && OldAccepted(h, body, HEADER_SIZE + |EncodeBody(body) + EncodeText(text)|, p)
    requires 0 < |text| <= MAXIMUM_TEXT && t.parse(text).Some?
    ensures LoadAny(SecondFile(h, body, text), p, t) == Some((ConfigOf(h), OldState(h, body, t.parse(text).value)))
  {
    hide HeaderBytes, EncodeBody, EncodeText, OldHeaderOk, BodyFits, GraphChecks, Hash, FieldsFit, Fields, LoadAny,
         ReadHeader, FileWith, ParseText, Covered;
    var payload := EncodeBody(body) + EncodeText(text);
    HashFits(HeaderBytes(h) + payload);
    FileWithSlices(h, Hash(FNV_OFFSET, HeaderBytes(h) + payload), payload);
    HeaderIsBack(h, Hash(FNV_OFFSET, HeaderBytes(h) + payload), payload);
    ParseTextExact(EncodeText(text), text);
    OldLoads(SecondFile(h, body, text), h, body, EncodeText(text), p, t);
  }

  /** Every accepted old file is of one of these two forms. */
  lemma OldIsCanonical(bytes: seq<byte>, p: Platform, t: TextCodec) returns (body: Body, rest: seq<byte>)
    requires LoadAny(bytes, p, t).Some? && ReadHeader(bytes).value.version != CURRENT_VERSION
    ensures var h := ReadHeader(bytes).value;
            && OldAccepted(h, body, |bytes|, p)
            && (h.version == FIRST_VERSION ==> bytes == FirstFile(h, body, rest))
            && (h.version == TEXT_VERSION ==> bytes == SecondFile(h, body, rest))
  {
    hide ReadHeader, OldHeaderOk, ParseBody, BodyFits, EncodeBody, GraphChecks, Hash, Covered, CoveredBody,
         StoredChecksum, FieldsFit, Fields, HeaderBytes, ConfigOf, OldState, FileWith, ParseText, EncodeText;
    var h := ReadHeader(bytes).value;
    ReadHeaderSound(bytes);
    VersionInRange(bytes);
    var parsed := ParseBody(bytes[HEADER_SIZE..], h.count, ConfigOf(h), h.maximumLevel, p);
    ParseBodySound(bytes[HEADER_SIZE..], h.count, ConfigOf(h), h.maximumLevel, p);
    body, rest := parsed.value, parsed.rest;
    FileApart(bytes, h);
    if h.version == FIRST_VERSION {
      BodyIsCovered(bytes, h, EncodeBody(body), rest);
    } else {
      rest := ParseText(parsed.rest).value;
      ParseTextExact(parsed.rest, rest);
      AllIsCovered(bytes, h);
    }
  }

  lemma BodyIsCovered(bytes: seq<byte>, h: Header, body: seq<byte>, rest: seq<byte>)
    requires |bytes| >= HEADER_SIZE && bytes[..104] == HeaderBytes(h) && bytes[HEADER_SIZE..] == body + rest
    ensures |rest| <= |bytes| - HEADER_SIZE && CoveredBody(bytes, rest) == HeaderBytes(h) + body
  {
    hide HeaderBytes;
    assert bytes[HEADER_SIZE..|bytes| - |rest|] == bytes[HEADER_SIZE..][..|body|];
  }

  lemma UnreadAtEnd(h: Header, body: Body, unread: seq<byte>)
    requires forall i :: 0 <= i < |body.nodes| ==> |body.nodes[i]| > 0
    ensures var file := FirstFile(h, body, unread);
            |file| == HEADER_SIZE + |EncodeBody(body)| + |unread| && file[HEADER_SIZE + |EncodeBody(body)|..] == unread
  {
    hide HeaderBytes, EncodeBody, Hash, LittleEndian;
  }

  /** A version-1 file protects nothing behind its nodes: other bytes there make no difference to the loader. */
  lemma UnreadBytesAreIgnored(h: Header, body: Body, unread: seq<byte>, other: seq<byte>, p: Platform, t: TextCodec)
    requires forall i :: 0 <= i < |body.nodes| ==> |body.nodes[i]| > 0
    requires h.version == FIRST_VERSION && OldAccepted(h, body, HEADER_SIZE + |EncodeBody(body) + unread|, p)
    requires |other| == |unread|
    ensures LoadAny(FirstFile(h, body, other), p, t) == LoadAny(FirstFile(h, body, unread), p, t) != None
    ensures other != unread ==> FirstFile(h, body, other) != FirstFile(h, body, unread)
  {
    hide HeaderBytes, EncodeBody, OldAccepted, Hash, LoadAny;
    FirstIsAccepted(h, body, unread, p, t);
    FirstIsAccepted(h, body, other, p, t);
    UnreadAtEnd(h, body, unread);
    UnreadAtEnd(h, body, other);
  }

  const ONE_NODE: Header := Header(FIRST_VERSION, 1, 1, 2, 2, 1, 0, 0, 0, 0, 21)

  lemma OneNodeIsAccepted(v: Vector, p: Platform)
    requires |v| == 1 && p.unitNorm(v)
    ensures var body := Body([0], [v], [[[]]]);
            |EncodeBody(body)| == 20 && OldAccepted(ONE_NODE, body, HEADER_SIZE + 21, p)
  {
    var body := Body([0], [v], [[[]]]);
    Powers();
    RowsSize([v], 1);
    NodesSize([[[]]], 4, 1);
    assert ListsFit([[]], 0, 1, ConfigOf(ONE_NODE), 0);
    assert NodeFits([[]], 0, 1, ConfigOf(ONE_NODE), 0);
    forall i | 0 <= i < 15 ensures Fields(ONE_NODE)[i] < Power(Widths()[i]) {
    }
  }

  /** Such files exist: 21 bytes of payload, 20 of them read. */
  lemma OneUnreadByte(v: Vector, a: byte, b: byte, p: Platform, t: TextCodec)
    requires |v| == 1 && p.unitNorm(v) && a != b
    ensures var body := Body([0], [v], [[[]]]);
            var file, other := FirstFile(ONE_NODE, body, [a]), FirstFile(ONE_NODE, body, [b]);
            file != other && LoadAny(file, p, t) == LoadAny(other, p, t) != None
  {
    hide EncodeBody, OldAccepted, LoadAny, FirstFile;
    var body := Body([0], [v], [[[]]]);
    OneNodeIsAccepted(v, p);
    assert |EncodeBody(body) + [a]| == 21;
    UnreadBytesAreIgnored(ONE_NODE, body, [a], [b], p, t);
  }

  // ---------- Substitutions ----------

  /** From version 2 on the checksum covers every byte. */
  lemma TextMeansChecksum(bytes: seq<byte>, p: Platform, t: TextCodec)
    requires LoadAny(bytes, p, t).Some? && ReadHeader(bytes).value.version >= TEXT_VERSION
    ensures |bytes| >= HEADER_SIZE && Hash(FNV_OFFSET, Covered(bytes)) == StoredChecksum(bytes)
  {
    hide Hash, LoadPayload, HeaderOk, OldHeaderOk, ParseBody, GraphChecks, Covered, StoredChecksum;
    VersionInRange(bytes);
    if ReadHeader(bytes).value.version == CURRENT_VERSION {
      LoadedMeansChecksum(bytes, p, t);
    }
  }

  lemma VersionDrops(x: seq<byte>, i: nat, b: byte)
    requires |x| == 4 && i < 4 && 2 <= Value(x) <= 3 && Value(x[i := b]) == 1
    ensures i == 0 && b == 1
  {
    FourBytes(x);
    FourBytes(x[i := b]);
  }

  lemma VersionStays(bytes: seq<byte>, i: nat, b: byte)
    requires i < |bytes| && ReadHeader(bytes).Some? && ReadHeader(bytes[i := b]).Some?
    requires ReadHeader(bytes).value.version >= TEXT_VERSION
    ensures ReadHeader(bytes[i := b]).value.version >= TEXT_VERSION || (i == 8 && b == 1)
  {
    var changed := bytes[i := b];
    VersionField(bytes);
    VersionField(changed);
    VersionInRange(bytes);
    VersionInRange(changed);
    hide ReadHeader, Value;
    if 8 <= i < 12 {
      assert changed[8..12] == bytes[8..12][i - 8 := b];
      if Value(changed[8..12]) == 1 {
        VersionDrops(bytes[8..12], i - 8, b);
      }
    } else {
      assert changed[8..12] == bytes[8..12];
    }
  }

  /** Replacing a single byte of an accepted file of version 2 or 3 makes the loader reject it, unless it turns the
      low version byte into 1 and version 1 happens to read something acceptable with the stored checksum. */
  lemma OneByteIsNoticed(bytes: seq<byte>, i: nat, b: byte, p: Platform, t: TextCodec)
    requires LoadAny(bytes, p, t).Some? && ReadHeader(bytes).value.version >= TEXT_VERSION
    requires i < |bytes| && b != bytes[i]
    ensures LoadAny(bytes[i := b], p, t).Some? <==> i == 8 && b == 1 && ReadsAsFirst(bytes[i := b], p)
  {
    hide Hash, ReadHeader, StoredChecksum, Covered, LoadAny, ReadsAsFirst;
    TextMeansChecksum(bytes, p, t);
    SubstitutionBreaksChecksum(bytes, i, b);
    var changed := bytes[i := b];
    if LoadAny(changed, p, t).Some? {
      AcceptedHasHeader(bytes, p, t);
      AcceptedHasHeader(changed, p, t);
      VersionStays(bytes, i, b);
      if ReadHeader(changed).value.version >= TEXT_VERSION {
        TextMeansChecksum(changed, p, t);
      } else {
        FirstReads(changed, p, t);
      }
    } else if ReadsAsFirst(changed, p) {
      FirstReadsLoad(changed, p, t);
    }
  }

  /** Header and body that version 1 reads and accepts, with a matching checksum. */
  ghost predicate ReadsAsFirst(bytes: seq<byte>, p: Platform) {
    |bytes| >= HEADER_SIZE && ReadHeader(bytes).Some? &&
    var h := ReadHeader(bytes).value;
    var r := ParseBody(bytes[HEADER_SIZE..], h.count, ConfigOf(h), h.maximumLevel, p);
    && h.version == FIRST_VERSION && OldHeaderOk(h, |bytes|)
    && r.Parsed? && |r.rest| <= |bytes| - HEADER_SIZE && GraphChecks(r.value.nodes, h)
    && Hash(FNV_OFFSET, CoveredBody(bytes, r.rest)) == StoredChecksum(bytes)
  }

  lemma AcceptedHasHeader(bytes: seq<byte>, p: Platform, t: TextCodec)
    requires LoadAny(bytes, p, t).Some?
    ensures ReadHeader(bytes).Some?
  {
    hide LoadOld, Load, ReadHeader;
  }

  lemma FirstReads(bytes: seq<byte>, p: Platform, t: TextCodec)
    requires LoadAny(bytes, p, t).Some? && ReadHeader(bytes).Some?
    requires ReadHeader(bytes).value.version < TEXT_VERSION
    ensures ReadsAsFirst(bytes, p)
  {
    hide OldHeaderOk, ParseBody, GraphChecks, Hash, StoredChecksum, CoveredBody, ConfigOf, OldState;
    VersionInRange(bytes);
    var h := ReadHeader(bytes).value;
    RestIsShorter(bytes[HEADER_SIZE..], h, p);
  }

  lemma FirstReadsLoad(bytes: seq<byte>, p: Platform, t: TextCodec)
    requires ReadsAsFirst(bytes, p)
    ensures LoadAny(bytes, p, t).Some?
  {
    hide OldHeaderOk, ParseBody, GraphChecks, Hash, StoredChecksum, CoveredBody, ConfigOf, OldState, ReadHeader;
  }

  // ---------- Upgrading ----------

  /** Loading a file of any version and saving it gives a version-3 file that loads to the very same index, if and
      only if the worst-case payload and the file length fit 64 bits. */
  lemma SavingUpgrades(bytes: seq<byte>, p: Platform, t: TextCodec)
    requires LoadAny(bytes, p, t).Some? && LawfulText(t)
    ensures var (config, s) := LoadAny(bytes, p, t).value;
            && LevelCounts(s.graph)
            && (Save(config, s, t).Some? ==>
                  LoadAny(Save(config, s, t).value, p, t)
                  == if SizesFit(HeaderFor(config, s, |PayloadOf(s, t.show(s.random))|))
                     then LoadAny(bytes, p, t) else None)
  {
    hide LoadAny, Save, Load, SizesFit, PayloadOf, Valid;
    LoadAnyIsSound(bytes, p, t);
    var (config, s) := LoadAny(bytes, p, t).value;
    ValidIsShaped(config, p, s);
    if Save(config, s, t).Some? {
      SaveThenLoad(config, p, s, t);
      SavedIsCurrent(config, p, s, t);
    }
  }

  lemma SavedIsCurrent(config: Config, p: Platform, s: State, t: TextCodec)
    requires Valid(config, p, s) && LevelCounts(s.graph) && Save(config, s, t).Some?
    ensures var file := Save(config, s, t).value;
            LoadAny(file, p, t) == match Load(file, p, t) case Loaded(c, r) => Some((c, r)) case _ => None
  {
    var text := t.show(s.random);
    HeaderIsRead(config, p, s, |PayloadOf(s, text)|, PayloadOf(s, text));
    hide Load, ReadHeader, Stored, PayloadOf, Valid, WithinLimits;
  }
}
