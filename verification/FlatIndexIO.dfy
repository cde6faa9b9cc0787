/** `FlatIndexSerializer`: loops over streams that compute what the flat format's functions say. */
module FlatIndexIO {
  import opened Wrappers
  import opened Bytes
  import opened CheckedArithmetic
  import opened Checksum
  import opened Encoding
  import opened Streams
  import opened StoredRows
  import opened Ranking
  import opened Configuration
  import opened HnswState
  import opened Flat
  import opened FlatFile

  /** `payload_size` */
  function CheckedPayloadSize(count: nat, dimension: nat): (r: Option<nat>)
    ensures r == if PayloadBytes(count, dimension) <= UINT64_MAX then Some(PayloadBytes(count, dimension)) else None
  {
    var idBytes: nat :- CheckedMultiply(count, 8);
    var elements: nat :- CheckedMultiply(count, dimension);
    var vectorBytes: nat :- CheckedMultiply(elements, 4);
    CheckedAdd(idBytes, vectorBytes)
  }

  method PutPayload(sink: Sink, s: Rows)
    modifies sink
    ensures sink.Took(old(sink.bytes), old(sink.checksum), Payload(s))
  {
    hide Hash, EncodeInts, EncodeRows;
    PutNext(sink.bytes, sink.checksum, EncodeInts(s.ids, 8), EncodeRows(s.vectors));
    sink.PutIntegers(s.ids, 8);
    PutRows(sink, s.vectors);
  }

  /** The checksum is computed over the payload alone, then header and payload are written. */
  method Save(index: FlatIndex) returns (r: Option<seq<byte>>)
    ensures r == FlatFile.Save(Rows(index.dimension, index.ids, index.vectors))
  {
    hide Hash, EncodeFields, Payload;
    var s := Rows(index.dimension, index.ids, index.vectors);
    var size: nat :- CheckedPayloadSize(|s.ids|, s.dimension);
    var digest := new Sink();
    PutPayload(digest, s);
    var output := new Sink();
    output.PutAll(MAGIC);
    output.PutFields(HeaderFields(s.dimension, |s.ids|, size, digest.checksum), Widths());
    PutPayload(output, s);
    assert [] + MAGIC == MAGIC;
    return Some(output.bytes);
  }

  /** The fields after the magic; the checksum starts behind them. */
  method ReadHeader(reader: Reader) returns (r: Option<seq<nat>>)
    requires reader.position == 0
    modifies reader
    ensures var data := reader.data;
            && (r.Some? <==> |data| >= HEADER_SIZE && data[..8] == MAGIC)
            && (r.Some? ==> |r.value| == |Widths()| && ParseFields(data[8..HEADER_SIZE], Widths()).Parsed?
                            && r.value == ParseFields(data[8..HEADER_SIZE], Widths()).value)
    ensures r.Some? ==> reader.position == HEADER_SIZE && reader.checksum == FNV_OFFSET
  {
    hide Hash, ParseFields;
    var data := reader.data;
    assert data[0..] == data;
    var ok, magic := reader.ReadBytes(8);
    if !ok || magic != MAGIC {
      return None;
    }
    TotalOfWidths();
    FieldsOfPrefix(data[8..], Widths());
    assert |data| >= HEADER_SIZE ==> data[8..][..48] == data[8..HEADER_SIZE] && data[8..][48..] == data[HEADER_SIZE..];
    var v: seq<nat>;
    ok, v := reader.ReadFields(Widths());
    if !ok {
      return None;
    }
    reader.checksum := FNV_OFFSET;
    return Some(v);
  }

  /** Duplicate IDs and rows that are not finite unit vectors are refused while they are read, a wrong
      checksum at the end. */
  method Load(data: seq<byte>, p: Platform) returns (index: FlatIndex?)
    ensures var r := FlatFile.Load(data, p);
            && (index != null <==> r.Some?)
            && (index != null ==> fresh(index) && index.Valid() && index.platform == p
                                  && r.value == Rows(index.dimension, index.ids, index.vectors))
  {
    hide Hash, ParseFields, ParseRowsOf, IdMap, IdsOk, FlatFile.Save, EncodeInts;
    index := null;
    var reader := new Reader(data);
    var header := ReadHeader(reader);
    if header.None? {
      return;
    }
    var v := header.value;
    if v[0] != FORMAT_VERSION || v[1] != HEADER_SIZE || v[2] != ENDIAN_MARKER
       || v[3] != NORMALIZED_COSINE || v[4] == 0 {
      return;
    }
    var size := CheckedPayloadSize(v[5], v[4]);
    if size.None? || v[6] != size.value {
      return;
    }
    var fileEnd := CheckedAdd(HEADER_SIZE, v[6]);
    if fileEnd.None? || fileEnd.value != |data| {
      return;
    }
    var rows: Option<(Rows, map<VectorId, nat>)>;
    rows := ReadPayload(reader, v[5], v[4], p);
    if rows.None? || reader.checksum != v[7] {
      return;
    }
    var (s, idToRow) := rows.value;
    LoadIsSoundAndCanonical(data, p);
    IdMapIsInverse(s.ids);
    index := new FlatIndex(s.dimension, p);
    index.ids, index.idToRow, index.vectors := s.ids, idToRow, s.vectors;
  }

  /** IDs and rows, which take up all that is left. */
  method ReadPayload(reader: Reader, count: nat, dimension: nat, p: Platform)
    returns (r: Option<(Rows, map<VectorId, nat>)>)
    requires reader.Inside() && 0 < dimension && |reader.data| - reader.position == PayloadBytes(count, dimension)
    modifies reader
    ensures r.Some? <==> ParseRowsOf(old(reader.Rest()), count, dimension, p).Some?
    ensures r.Some? ==>
      && r.value.0 == ParseRowsOf(old(reader.Rest()), count, dimension, p).value
      && r.value.1 == IdMap(r.value.0.ids)
      && reader.checksum == Hash(old(reader.checksum), old(reader.Rest()))
  {
    hide Hash, ParseInts, ParseRows, IdMap;
    ghost var begin := reader.position;
    var ok, ids, idToRow := ReadIds(reader, count);
    if !ok {
      return None;
    }
    ghost var from := reader.position;
    var vectors: seq<Vector>;
    ok, vectors := ReadRows(reader, count, dimension, p);
    if !ok {
      return None;
    }
    ReadOn(reader.data, begin, from, reader.position, old(reader.checksum));
    NothingLeft(reader.data[begin..], count, dimension, p);
    assert reader.data[begin..reader.position] == reader.data[begin..];
    return Some((Rows(dimension, ids, vectors), idToRow));
  }

  lemma NothingLeft(bytes: seq<byte>, count: nat, dimension: nat, p: Platform)
    requires |bytes| == PayloadBytes(count, dimension) && ParseInts(bytes, count, 8).Parsed?
    requires ParseRows(ParseInts(bytes, count, 8).rest, count, dimension, p).Parsed?
    ensures ParseRows(ParseInts(bytes, count, 8).rest, count, dimension, p).rest == []
  {
    ParseIntsSound(bytes, count, 8);
    var ids := ParseInts(bytes, count, 8);
    ParseRowsSound(ids.rest, count, dimension, p);
    RowsSize(ParseRows(ids.rest, count, dimension, p).value, dimension);
  }
}
