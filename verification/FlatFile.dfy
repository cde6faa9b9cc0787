/** The version-1 flat snapshot format. Its checksum covers the payload only, so the header is protected
    by nothing but its own consistency with the file. */
module FlatFile {
  import opened Wrappers
  import opened Bytes
  import opened Checksum
  import opened Encoding
  import opened Ranking
  import opened Configuration

  const MAGIC: seq<byte> := [70, 86, 73, 78, 68, 69, 88, 0]
  const FORMAT_VERSION: nat := 1
  const HEADER_SIZE: nat := 56
  const ENDIAN_MARKER: nat := 0x01020304
  const NORMALIZED_COSINE: nat := 1

  /** Bytes of each header field. */
  function Widths(): (r: seq<nat>)
    ensures |r| == 8
  {
    seq(8, i => if i < 4 then 4 else 8)
  }

  /** What a flat index stores, apart from its ID map. */
  datatype Rows = Rows(dimension: nat, ids: seq<VectorId>, vectors: seq<Vector>)

  ghost predicate RowsOk(s: Rows, p: Platform) {
    && 0 < s.dimension <= UINT64_MAX
    && |s.ids| == |s.vectors| && Distinct(s.ids)
    && forall i :: 0 <= i < |s.vectors| ==> |s.vectors[i]| == s.dimension && p.unitNorm(s.vectors[i])
  }

  function Payload(s: Rows): seq<byte> {
    EncodeInts(s.ids, 8) + EncodeRows(s.vectors)
  }

  function PayloadBytes(count: nat, dimension: nat): nat {
    count * 8 + count * dimension * 4
  }

  /** Version, header size, endianness marker, flags, dimension, count, payload size and checksum. */
  function HeaderField(dimension: nat, count: nat, payloadBytes: nat, checksum: nat, i: nat): nat
    requires i < 8
  {
    match i
    case 0 => FORMAT_VERSION
    case 1 => HEADER_SIZE
    case 2 => ENDIAN_MARKER
    case 3 => NORMALIZED_COSINE
    case 4 => dimension
    case 5 => count
    case 6 => payloadBytes
    case _ => checksum
  }

  function HeaderFields(dimension: nat, count: nat, payloadBytes: nat, checksum: nat): (r: seq<nat>)
    ensures |r| == |Widths()|
  {
    seq(8, i requires 0 <= i < 8 => HeaderField(dimension, count, payloadBytes, checksum, i))
  }

  function FileOf(s: Rows): seq<byte> {
    MAGIC
    + EncodeFields(HeaderFields(s.dimension, |s.ids|, PayloadBytes(|s.ids|, s.dimension),
                                Hash(FNV_OFFSET, Payload(s))), Widths())
    + Payload(s)
  }

  /** `save` */
  function Save(s: Rows): Option<seq<byte>> {
    if PayloadBytes(|s.ids|, s.dimension) > UINT64_MAX then None else Some(FileOf(s))
  }

  predicate FieldsOk(v: seq<nat>, fileBytes: nat)
    requires |v| == |Widths()|
  {
    && v[0] == FORMAT_VERSION && v[1] == HEADER_SIZE && v[2] == ENDIAN_MARKER && v[3] == NORMALIZED_COSINE
    && v[4] != 0
    && v[6] == PayloadBytes(v[5], v[4]) <= UINT64_MAX
    && HEADER_SIZE + v[6] <= UINT64_MAX && HEADER_SIZE + v[6] == fileBytes
  }

  ghost function ParseRowsOf(bytes: seq<byte>, count: nat, dimension: nat, p: Platform): Option<Rows> {
    match ParseInts(bytes, count, 8)
    case Failed => None
    case Parsed(values, rest) =>
      if !Distinct(values) then None else
        match ParseRows(rest, count, dimension, p)
        case Failed => None
        case Parsed(vectors, _) =>
          Some(Rows(dimension, AsIds(values, bytes, count), vectors))
  }

  /** `load` */
  ghost function Load(bytes: seq<byte>, p: Platform): Option<Rows> {
    if |bytes| < HEADER_SIZE || bytes[..8] != MAGIC then None else
      match ParseFields(bytes[8..HEADER_SIZE], Widths())
      case Failed => None
      case Parsed(v, _) =>
        if !FieldsOk(v, |bytes|) then None else
          var r := ParseRowsOf(bytes[HEADER_SIZE..], v[5], v[4], p);
          if Hash(FNV_OFFSET, bytes[HEADER_SIZE..]) == v[7] then r else None
  }

  // ---------- Payload ----------

  lemma PayloadSize(s: Rows, p: Platform)
    requires RowsOk(s, p)
    ensures |Payload(s)| == PayloadBytes(|s.ids|, s.dimension)
  {
    RowsSize(s.vectors, s.dimension);
  }

  lemma RowsReturn(s: Rows, p: Platform)
    requires RowsOk(s, p)
    ensures ParseRowsOf(Payload(s), |s.ids|, s.dimension, p) == Some(s)
  {
    hide EncodeInts, EncodeRows, ParseInts, ParseRows, Power;
    Powers();
    ParseIntsComplete(s.ids, 8, EncodeRows(s.vectors));
    ParseRowsComplete(s.vectors, s.dimension, p, []);
    assert EncodeRows(s.vectors) + [] == EncodeRows(s.vectors);
  }

  lemma RowsAreSound(bytes: seq<byte>, count: nat, dimension: nat, p: Platform)
    requires ParseRowsOf(bytes, count, dimension, p).Some? && 0 < dimension <= UINT64_MAX
    requires |bytes| == PayloadBytes(count, dimension)
    ensures var s := ParseRowsOf(bytes, count, dimension, p).value;
            RowsOk(s, p) && s.dimension == dimension && |s.ids| == count && bytes == Payload(s)
  {
    hide EncodeRows, ParseInts, ParseRows, Power;
    var s := ParseRowsOf(bytes, count, dimension, p).value;
    ParseIntsSound(bytes, count, 8);
    var ids := ParseInts(bytes, count, 8);
    ParseRowsSound(ids.rest, count, dimension, p);
    var rows := ParseRows(ids.rest, count, dimension, p);
    RowsSize(s.vectors, dimension);
    assert |rows.rest| == 0;
    assert EncodeRows(s.vectors) + [] == EncodeRows(s.vectors);
  }

  // ---------- Header ----------

  lemma TotalOfWidths()
    ensures Total(Widths()) == 48
  {
  }

  lemma FileSlices(v: seq<nat>, payload: seq<byte>)
    requires |v| == |Widths()|
    ensures var bytes := MAGIC + EncodeFields(v, Widths()) + payload;
            && |bytes| == HEADER_SIZE + |payload| && bytes[..8] == MAGIC
            && bytes[8..HEADER_SIZE] == EncodeFields(v, Widths()) && bytes[HEADER_SIZE..] == payload
  {
    TotalOfWidths();
    hide EncodeFields;
  }

  // ---------- Round trip, soundness, canonicity ----------

  /** Loading what was saved gives the same rows back, unless the length of the whole file does not fit
      64 bits. */
  lemma SaveThenLoad(s: Rows, p: Platform)
    requires RowsOk(s, p) && Save(s).Some?
    ensures Load(Save(s).value, p)
            == if HEADER_SIZE + PayloadBytes(|s.ids|, s.dimension) <= UINT64_MAX then Some(s) else None
  {
    hide EncodeFields, ParseFields, ParseRowsOf, Hash, Payload, FieldsFit, PayloadBytes, HeaderFields;
    var size, checksum := PayloadBytes(|s.ids|, s.dimension), Hash(FNV_OFFSET, Payload(s));
    var v := HeaderFields(s.dimension, |s.ids|, size, checksum);
    HeaderFits(s);
    FieldValues(s.dimension, |s.ids|, size, checksum);
    FileSlices(v, Payload(s));
    ParseFieldsComplete(v, Widths(), []);
    assert EncodeFields(v, Widths()) + [] == EncodeFields(v, Widths());
    PayloadSize(s, p);
    RowsReturn(s, p);
  }

  lemma FieldValues(dimension: nat, count: nat, payloadBytes: nat, checksum: nat)
    ensures var v := HeaderFields(dimension, count, payloadBytes, checksum);
            && v[0] == FORMAT_VERSION && v[1] == HEADER_SIZE && v[2] == ENDIAN_MARKER && v[3] == NORMALIZED_COSINE
            && v[4] == dimension && v[5] == count && v[6] == payloadBytes && v[7] == checksum
  {
  }

  lemma HeaderFits(s: Rows)
    requires s.dimension <= UINT64_MAX && PayloadBytes(|s.ids|, s.dimension) <= UINT64_MAX
    ensures FieldsFit(HeaderFields(s.dimension, |s.ids|, PayloadBytes(|s.ids|, s.dimension),
                                   Hash(FNV_OFFSET, Payload(s))), Widths())
  {
    hide Hash, Payload;
    Powers();
    assert |s.ids| <= PayloadBytes(|s.ids|, s.dimension);
  }

  /** An accepted file yields distinct IDs and unit rows of one positive dimension, and saving them writes
      exactly that file. */
  lemma LoadIsSoundAndCanonical(bytes: seq<byte>, p: Platform)
    requires Load(bytes, p).Some?
    ensures RowsOk(Load(bytes, p).value, p) && Save(Load(bytes, p).value) == Some(bytes)
  {
    hide EncodeFields, ParseFields, ParseRowsOf, Hash, Payload, FieldsFit, RowsOk;
    TotalOfWidths();
    ParseFieldsExact(bytes[8..HEADER_SIZE], Widths());
    var v := ParseFields(bytes[8..HEADER_SIZE], Widths()).value;
    FieldBound(v);
    RowsAreSound(bytes[HEADER_SIZE..], v[5], v[4], p);
    var s := Load(bytes, p).value;
    assert v == HeaderFields(s.dimension, |s.ids|, PayloadBytes(|s.ids|, s.dimension), Hash(FNV_OFFSET, Payload(s)));
    assert bytes == bytes[..8] + bytes[8..HEADER_SIZE] + bytes[HEADER_SIZE..];
  }

  lemma LoadedSize(bytes: seq<byte>, p: Platform)
    requires Load(bytes, p).Some?
    ensures |bytes| >= HEADER_SIZE
  {
  }

  lemma FieldBound(v: seq<nat>)
    requires FieldsFit(v, Widths())
    ensures v[4] <= UINT64_MAX
  {
  }

  // ---------- Single-byte substitutions ----------

  /** Version, header size, endianness marker and flags. */
  function Constants(): (r: seq<byte>)
    ensures |r| == 16
  {
    assert Total([4, 4, 4, 4]) == 16 by { TotalOfEqual([4, 4, 4, 4], 4); }
    EncodeFields([FORMAT_VERSION, HEADER_SIZE, ENDIAN_MARKER, NORMALIZED_COSINE], [4, 4, 4, 4])
  }

  lemma OneField(x: nat, w: nat)
    ensures EncodeFields([x], [w]) == LittleEndian(x, w)
  {
  }

  /** Where each part of a file is. */
  ghost predicate LaidOut(bytes: seq<byte>, s: Rows, size: nat, hash: nat) {
    && |bytes| == HEADER_SIZE + |Payload(s)|
    && bytes[..8] == MAGIC && bytes[8..24] == Constants()
    && bytes[24..32] == LittleEndian(s.dimension, 8) && bytes[32..40] == LittleEndian(|s.ids|, 8)
    && bytes[40..48] == LittleEndian(size, 8) && bytes[48..56] == LittleEndian(hash, 8)
    && bytes[56..] == Payload(s)
  }

  lemma Layout(s: Rows)
    ensures LaidOut(FileOf(s), s, PayloadBytes(|s.ids|, s.dimension), Hash(FNV_OFFSET, Payload(s)))
  {
    var a, b, c, d := s.dimension, |s.ids|, PayloadBytes(|s.ids|, s.dimension), Hash(FNV_OFFSET, Payload(s));
    hide EncodeFields, LittleEndian, Hash, Payload, Constants;
    FieldsApart(a, b, c, d);
    Sections(FileOf(s), MAGIC, Constants(), LittleEndian(a, 8), LittleEndian(b, 8), LittleEndian(c, 8),
             LittleEndian(d, 8), Payload(s));
  }

  lemma FieldsApart(a: nat, b: nat, c: nat, d: nat)
    ensures EncodeFields(HeaderFields(a, b, c, d), Widths())
            == Constants() + (LittleEndian(a, 8) + (LittleEndian(b, 8) + (LittleEndian(c, 8) + LittleEndian(d, 8))))
  {
    var k := [FORMAT_VERSION, HEADER_SIZE, ENDIAN_MARKER, NORMALIZED_COSINE];
    hide EncodeFields, LittleEndian;
    EncodeFieldsJoin(k, [a] + ([b] + ([c] + [d])), [4, 4, 4, 4], [8] + ([8] + ([8] + [8])));
    EncodeFieldsJoin([a], [b] + ([c] + [d]), [8], [8] + ([8] + [8]));
    EncodeFieldsJoin([b], [c] + [d], [8], [8] + [8]);
    EncodeFieldsJoin([c], [d], [8], [8]);
    OneField(a, 8);
    OneField(b, 8);
    OneField(c, 8);
    OneField(d, 8);
    assert HeaderFields(a, b, c, d) == k + ([a] + ([b] + ([c] + [d])));
    assert Widths() == [4, 4, 4, 4] + ([8] + ([8] + ([8] + [8])));
  }

  lemma Sections(x: seq<byte>, a: seq<byte>, b: seq<byte>, c: seq<byte>, d: seq<byte>, e: seq<byte>, f: seq<byte>,
                 g: seq<byte>)
    requires x == a + (b + (c + (d + (e + f)))) + g
    requires |a| == 8 && |b| == 16 && |c| == |d| == |e| == |f| == 8
    ensures |x| == 56 + |g| && x[..8] == a && x[8..24] == b && x[24..32] == c && x[32..40] == d
    ensures x[40..48] == e && x[48..56] == f && x[56..] == g
  {
  }

  lemma SameInteger(a: nat, b: nat)
    requires a <= UINT64_MAX && b <= UINT64_MAX && LittleEndian(a, 8) == LittleEndian(b, 8)
    ensures a == b
  {
    Powers();
    ValueOfLittleEndian(a, 8);
    ValueOfLittleEndian(b, 8);
  }

  lemma CountsAgree(n: nat, m: nat, dimension: nat)
    requires PayloadBytes(n, dimension) == PayloadBytes(m, dimension)
    ensures n == m
  {
  }

  lemma SliceKept(x: seq<byte>, i: nat, b: byte, from: nat, to: nat)
    requires i < |x| && from <= to <= |x| && !(from <= i < to)
    ensures x[i := b][from..to] == x[from..to]
  {
  }

  lemma SliceChanged(x: seq<byte>, i: nat, b: byte, from: nat, to: nat)
    requires from <= i < to <= |x| && b != x[i]
    ensures x[i := b][from..to] != x[from..to]
  {
  }

  /** Neither magic nor constants can change. */
  lemma ConstantsKept(x: seq<byte>, i: nat, b: byte, s: Rows, m: nat, h: nat, r: Rows, m': nat, h': nat)
    requires i < |x| && b != x[i] && LaidOut(x, s, m, h) && LaidOut(x[i := b], r, m', h')
    ensures i >= 24
  {
  }

  /** The stored checksum pins the payload down, the payload the stored checksum and size. */
  lemma OnlyDimensionOrCount(x: seq<byte>, i: nat, b: byte, s: Rows, r: Rows, m: nat)
    requires i < |x| && b != x[i]
    requires LaidOut(x, s, m, Hash(FNV_OFFSET, Payload(s))) && LaidOut(x[i := b], r, m, Hash(FNV_OFFSET, Payload(r)))
    ensures 24 <= i < 40
  {
    ConstantsKept(x, i, b, s, m, Hash(FNV_OFFSET, Payload(s)), r, m, Hash(FNV_OFFSET, Payload(r)));
    hide LittleEndian, Payload, Constants, Hash;
    if i >= 56 {
      SliceKept(x, i, b, 48, 56);
      assert x[i := b][56..] == x[56..][i - 56 := b];
      SubstitutionChangesHash(FNV_OFFSET, x[56..], i - 56, b);
      SameInteger(Hash(FNV_OFFSET, Payload(s)), Hash(FNV_OFFSET, Payload(r)));
    } else if i >= 40 {
      assert x[i := b][56..] == x[56..];
      if i < 48 {
        SliceChanged(x, i, b, 40, 48);
      } else {
        SliceChanged(x, i, b, 48, 56);
      }
    }
  }

  /** With sizes fixed, a different dimension means that there are no rows. */
  lemma DimensionsDiffer(n: nat, d: nat, e: nat)
    requires PayloadBytes(n, d) == PayloadBytes(n, e) && d != e
    ensures n == 0
  {
  }

  /** Two files that differ in one byte and both load: they are of empty indexes and differ in dimension. */
  lemma BothLoad(s: Rows, r: Rows, i: nat, b: byte, p: Platform)
    requires RowsOk(s, p) && RowsOk(r, p)
    requires PayloadBytes(|s.ids|, s.dimension) <= UINT64_MAX && PayloadBytes(|r.ids|, r.dimension) <= UINT64_MAX
    requires i < |FileOf(s)| && b != FileOf(s)[i] && FileOf(r) == FileOf(s)[i := b]
    ensures |s.ids| == 0 && 24 <= i < 32 && r == Rows(Value(FileOf(r)[24..32]), [], [])
  {
    Layout(s);
    Layout(r);
    PayloadSize(s, p);
    PayloadSize(r, p);
    SmallCount(|s.ids|, s.dimension);
    SmallCount(|r.ids|, r.dimension);
    Powers();
    ValueOfLittleEndian(r.dimension, 8);
    var x := FileOf(s);
    hide FileOf, LittleEndian, Hash, Payload, PayloadBytes, Value, Constants;
    OnlyDimensionOrCount(x, i, b, s, r, PayloadBytes(|s.ids|, s.dimension));
    if i >= 32 {
      SliceKept(x, i, b, 24, 32);
      SliceChanged(x, i, b, 32, 40);
      SameInteger(s.dimension, r.dimension);
      CountsAgree(|s.ids|, |r.ids|, s.dimension);
    } else {
      SliceChanged(x, i, b, 24, 32);
      SliceKept(x, i, b, 32, 40);
      SameInteger(|s.ids|, |r.ids|);
      DimensionsDiffer(|s.ids|, s.dimension, r.dimension);
    }
  }

  lemma SmallCount(n: nat, d: nat)
    requires PayloadBytes(n, d) <= UINT64_MAX
    ensures n <= UINT64_MAX
  {
  }

  /** The file of an empty index, with one byte of its dimension replaced, is the file of the empty index
      of that other dimension. */
  lemma EmptyFiles(d: nat, i: nat, b: byte)
    requires 0 < d <= UINT64_MAX && 24 <= i < 32
    ensures var x := FileOf(Rows(d, [], []));
            |x| == HEADER_SIZE && x[i := b] == FileOf(Rows(Value(x[i := b][24..32]), [], []))
  {
    hide FileOf, LittleEndian, Hash, Payload, PayloadBytes, Value, Constants;
    var x := FileOf(Rows(d, [], []));
    Layout(Rows(d, [], []));
    EmptyPayload(d);
    var y := x[i := b];
    var e := Value(y[24..32]);
    Layout(Rows(e, [], []));
    LittleEndianOfValue(y[24..32]);
    EmptyPayload(e);
    var z := FileOf(Rows(e, [], []));
    SliceKept(x, i, b, 0, 8);
    SliceKept(x, i, b, 8, 24);
    SliceKept(x, i, b, 32, 40);
    SliceKept(x, i, b, 40, 48);
    SliceKept(x, i, b, 48, 56);
    SameSections(y, z);
  }

  lemma EmptyPayload(d: nat)
    ensures Payload(Rows(d, [], [])) == [] && PayloadBytes(0, d) == 0
  {
  }

  lemma SameSections(y: seq<byte>, z: seq<byte>)
    requires |y| == |z| == 56
    requires y[..8] == z[..8] && y[8..24] == z[8..24] && y[24..32] == z[24..32] && y[32..40] == z[32..40]
    requires y[40..48] == z[40..48] && y[48..56] == z[48..56]
    ensures y == z
  {
  }

  /** Replacing one byte of a loadable file goes unnoticed exactly when the index is empty and the byte
      belongs to the dimension field, which then still must not be zero; the result is an empty index of
      that dimension. Every substitution in a payload, and every other one in a header, is rejected. */
  lemma SubstitutionIsRejectedUnlessEmpty(bytes: seq<byte>, i: nat, b: byte, p: Platform)
    requires Load(bytes, p).Some? && i < |bytes| && b != bytes[i]
    ensures Load(bytes[i := b], p)
            == if |Load(bytes, p).value.ids| == 0 && 24 <= i < 32 && Value(bytes[i := b][24..32]) != 0
               then Some(Rows(Value(bytes[i := b][24..32]), [], []))
               else None
  {
    hide Load, FileOf, Value, EncodeInts, EncodeRows, Hash;
    LoadedSize(bytes, p);
    LoadIsSoundAndCanonical(bytes, p);
    var s, changed := Load(bytes, p).value, bytes[i := b];
    if Load(changed, p).Some? {
      LoadIsSoundAndCanonical(changed, p);
      BothLoad(s, Load(changed, p).value, i, b, p);
    }
    if |s.ids| == 0 && 24 <= i < 32 && Value(changed[24..32]) != 0 {
      EmptyFiles(s.dimension, i, b);
      Powers();
      SaveThenLoad(Rows(Value(changed[24..32]), [], []), p);
    }
  }
}
