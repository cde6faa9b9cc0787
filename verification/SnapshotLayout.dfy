/** Where everything is in a snapshot file: bytes at literal offsets, so that readers and writers of other programs
    agree with this one. */
module SnapshotLayout {
  import opened Bytes
  import opened Checksum
  import opened Encoding
  import opened Configuration
  import opened GraphLinks
  import opened HnswState
  import opened HnswFormat
  import opened HnswFile
  import opened HnswSnapshot
  import FlatFile

  // ---------- Integers and checksum ----------

  /** Byte `i` of an integer is its digit `i` to base 256. */
  lemma {:induction false} DigitOfLittleEndian(v: nat, w: nat, i: nat)
    requires i < w
    ensures LittleEndian(v, w)[i] == (v / Power(i)) % 256
  {
    if i > 0 {
      DigitOfLittleEndian(v / 256, w - 1, i - 1);
      DivideTwice(v, 256, Power(i - 1));
    }
  }

  lemma DivideTwice(v: nat, a: nat, b: nat)
    requires a > 0 && b > 0
    ensures a * b > 0 && v / a / b == v / (a * b)
  {
    var q, r := v / a, v % a;
    var s, t := q / b, q % b;
    Compose(a, b, q, r, s, t);
    QuotientUnique(v, a * b, s, a * t + r);
  }

  lemma Compose(a: nat, b: nat, q: nat, r: nat, s: nat, t: nat)
    requires r < a && t < b && q == b * s + t
    ensures a * q + r == (a * b) * s + (a * t + r) && 0 <= a * t + r < a * b
  {
    assert a * (b * s + t) == (a * b) * s + a * t;
    assert a * t <= a * (b - 1) == a * b - a;
  }

  lemma QuotientUnique(n: int, m: int, z: int, x: int)
    requires 0 <= x < m && n == m * z + x
    ensures n / m == z
  {
    var d := z - n / m;
    assert m * d == n % m - x;
    assert d >= 1 ==> m * d >= m;
    assert d <= -1 ==> m * d <= -m;
  }

  /** The checksum of one byte as published for the 64-bit FNV-1a function. */
  lemma ChecksumOfA()
    ensures Hash(FNV_OFFSET, []) == 0xCBF2_9CE4_8422_2325
    ensures Hash(FNV_OFFSET, [97]) == 0xAF63_DC4C_8601_EC8C
  {
    MixedA();
    hide Mix;
    assert Update(FNV_OFFSET, 97) == 0xAF63_DC4C_8601_EC8C;
    hide Update;
    var a: seq<byte> := [97];
    assert a[1..] == [];
    assert Hash(FNV_OFFSET, a) == Hash(Update(FNV_OFFSET, 97), []);
  }

  lemma MixedA()
    ensures Mix(FNV_OFFSET, 97) == 0xCBF2_9CE4_8422_2344
  {
    XorOfA();
    hide Xor;
    assert FNV_OFFSET == 0xCBF2_9CE4_8422_2325;
  }

  lemma XorOfA()
    ensures Xor(0x25, 97) == 0x44
  {
    assert XorBits(2, 6, 4) == 4;
    assert XorBits(4, 12, 5) == 8;
  }

  // ---------- Headers ----------

  lemma {:induction false} FieldAt(xs: seq<nat>, widths: seq<nat>, i: nat)
    requires |xs| == |widths| && i < |xs|
    ensures var from := Total(widths[..i]);
            && from + widths[i] <= |EncodeFields(xs, widths)|
            && EncodeFields(xs, widths)[from..from + widths[i]] == LittleEndian(xs[i], widths[i])
    decreases i
  {
    hide LittleEndian;
    var head, tail := LittleEndian(xs[0], widths[0]), EncodeFields(xs[1..], widths[1..]);
    if i == 0 {
      assert (head + tail)[..widths[0]] == head;
    } else {
      FieldAt(xs[1..], widths[1..], i - 1);
      assert widths[..i][1..] == widths[1..][..i - 1];
      SliceOfTail(head, tail, Total(widths[1..][..i - 1]), widths[i]);
    }
  }

  lemma SliceOfTail(a: seq<byte>, b: seq<byte>, from: nat, n: nat)
    requires from + n <= |b|
    ensures (a + b)[|a| + from..|a| + from + n] == b[from..from + n]
  {
  }

  /** The offset of field `i` behind the magic. */
  function OffsetOf(i: nat): nat {
    if i <= 4 then 4 * i
    else if i <= 10 then 16 + 8 * (i - 4)
    else if i <= 12 then 64 + 4 * (i - 10)
    else 72 + 8 * (i - 12)
  }

  lemma {:induction false} WidthsBefore(i: nat)
    requires i <= 15
    ensures Total(Widths()[..i]) == OffsetOf(i)
    decreases i
  {
    if i > 0 {
      WidthsBefore(i - 1);
      TotalJoin(Widths()[..i - 1], [WidthOf(i - 1)]);
      assert Widths()[..i] == Widths()[..i - 1] + [WidthOf(i - 1)];
    }
  }

  lemma HeaderFieldAt(h: Header, i: nat)
    requires i < 15
    ensures 8 + OffsetOf(i) + WidthOf(i) <= 104
    ensures HeaderBytes(h)[8 + OffsetOf(i)..8 + OffsetOf(i) + WidthOf(i)] == LittleEndian(FieldOf(h, i), WidthOf(i))
  {
    hide EncodeFields, LittleEndian, Total;
    TotalOfWidths();
    WidthsBefore(i);
    FieldAt(Fields(h), Widths(), i);
    SliceOfTail(MAGIC, EncodeFields(Fields(h), Widths()), OffsetOf(i), WidthOf(i));
  }

  /** The bytes from `from` to `end` hold this number. */
  predicate Holds(bytes: seq<byte>, from: nat, end: nat, v: nat) {
    from <= end <= |bytes| && Value(bytes[from..end]) == v
  }

  lemma FieldHolds(h: Header, i: nat, rest: seq<byte>)
    requires i < 15 && FieldsFit(Fields(h), Widths())
    ensures Holds(HeaderBytes(h) + rest, 8 + OffsetOf(i), 8 + OffsetOf(i) + WidthOf(i), FieldOf(h, i))
  {
    hide LittleEndian, Value, Power, HeaderBytes;
    HeaderFieldAt(h, i);
    var from, end := 8 + OffsetOf(i), 8 + OffsetOf(i) + WidthOf(i);
    assert (HeaderBytes(h) + rest)[from..end] == HeaderBytes(h)[from..end];
    assert Fields(h)[i] < Power(Widths()[i]);
    ValueOfLittleEndian(FieldOf(h, i), WidthOf(i));
  }

  /** The header of every saved HNSW index, byte by byte. The checksum covers everything but itself. */
  lemma HnswHeader(config: Config, p: Platform, s: State, text: seq<byte>)
    requires Valid(config, p, s) && |PayloadOf(s, text)| <= UINT64_MAX
    ensures var b := FileOf(config, s, text);
            && |b| == 112 + |PayloadOf(s, text)| && b[..8] == [70, 86, 72, 78, 83, 87, 0, 0]
            && Holds(b, 8, 12, 3) && Holds(b, 12, 16, 112) && Holds(b, 16, 20, 0x01020304) && Holds(b, 20, 24, 1)
            && Holds(b, 24, 32, config.dimension) && Holds(b, 32, 40, |s.ids|)
            && Holds(b, 40, 48, config.maxConnections) && Holds(b, 48, 56, config.efConstruction)
            && Holds(b, 56, 64, config.efSearch) && Holds(b, 64, 72, config.randomSeed)
            && Holds(b, 72, 76, if config.selection.Simple? then 0 else 1) && Holds(b, 76, 80, 0)
            && Holds(b, 80, 88, if |s.ids| == 0 then 0 else s.maxLevel)
            && Holds(b, 88, 96, if |s.ids| == 0 then 0xFFFF_FFFF_FFFF_FFFF else s.entryPoint)
            && Holds(b, 96, 104, |b| - 112)
            && Holds(b, 104, 112, Hash(FNV_OFFSET, b[..104] + b[112..]))
            && b[112..] == PayloadOf(s, text)
  {
    assert LevelCounts(s.graph);
    hide Valid, PayloadOf, HeaderBytes, Hash, LittleEndian, Value, Holds, Fields, Widths, FieldsFit, FileWith;
    var payload := PayloadOf(s, text);
    var h := HeaderFor(config, s, |payload|);
    var sum := Hash(FNV_OFFSET, HeaderBytes(h) + payload);
    HeaderFits(config, p, s, |payload|);
    FileParts(h, sum, payload);
    HeaderHolds(h, LittleEndian(sum, 8) + payload);
    HashFits(HeaderBytes(h) + payload);
    StoredChecksumHolds(h, sum, payload);
  }

  lemma HeaderHolds(h: Header, rest: seq<byte>)
    requires FieldsFit(Fields(h), Widths())
    ensures var b := HeaderBytes(h) + rest;
            && Holds(b, 8, 12, h.version) && Holds(b, 12, 16, 112)
            && Holds(b, 16, 20, 0x01020304) && Holds(b, 20, 24, 1)
            && Holds(b, 24, 32, h.dimension) && Holds(b, 32, 40, h.count) && Holds(b, 40, 48, h.maxConnections)
            && Holds(b, 48, 56, h.efConstruction) && Holds(b, 56, 64, h.efSearch) && Holds(b, 64, 72, h.seed)
            && Holds(b, 72, 76, h.selection) && Holds(b, 76, 80, 0) && Holds(b, 80, 88, h.maximumLevel)
            && Holds(b, 88, 96, h.entryPoint) && Holds(b, 96, 104, h.payloadBytes)
  {
    hide Holds, HeaderBytes, Fields, Widths, FieldsFit;
    FieldHolds(h, 0, rest);
    FieldHolds(h, 1, rest);
    FieldHolds(h, 2, rest);
    FieldHolds(h, 3, rest);
    FieldHolds(h, 4, rest);
    FieldHolds(h, 5, rest);
    FieldHolds(h, 6, rest);
    FieldHolds(h, 7, rest);
    FieldHolds(h, 8, rest);
    FieldHolds(h, 9, rest);
    FieldHolds(h, 10, rest);
    FieldHolds(h, 11, rest);
    FieldHolds(h, 12, rest);
    FieldHolds(h, 13, rest);
    FieldHolds(h, 14, rest);
  }

  lemma FileParts(h: Header, sum: nat, payload: seq<byte>)
    ensures var b := FileWith(h, sum, payload);
            && |b| == 112 + |payload| && b[..8] == [70, 86, 72, 78, 83, 87, 0, 0] && b[..104] == HeaderBytes(h)
            && b[112..] == payload && b == HeaderBytes(h) + (LittleEndian(sum, 8) + payload)
  {
    hide EncodeFields, LittleEndian;
    assert HeaderBytes(h)[..8] == MAGIC;
  }

  lemma StoredChecksumHolds(h: Header, sum: nat, payload: seq<byte>)
    requires sum < MODULUS
    ensures Holds(FileWith(h, sum, payload), 104, 112, sum)
  {
    hide HeaderBytes, LittleEndian, Value, Power;
    Powers();
    ValueOfLittleEndian(sum, 8);
    var b := FileWith(h, sum, payload);
    assert b[104..112] == LittleEndian(sum, 8);
  }

  // ---------- A whole small file ----------

  lemma {:induction false} SmallNumber(v: nat, w: nat)
    requires v < 256 && w > 0
    ensures LittleEndian(v, w) == [v] + seq(w - 1, _ => 0)
    decreases w
  {
    if w > 1 {
      SmallNumber(0, w - 1);
      assert [0] + seq(w - 2, _ => 0) == seq(w - 1, _ => 0);
    } else {
      assert LittleEndian(0, 0) == [];
    }
  }

  lemma SmallNumbers(v: nat)
    requires v < 256
    ensures LittleEndian(v, 1) == [v] && LittleEndian(v, 4) == [v, 0, 0, 0]
    ensures LittleEndian(v, 8) == [v, 0, 0, 0, 0, 0, 0, 0]
  {
    hide LittleEndian;
    SmallNumber(v, 1);
    SmallNumber(v, 4);
    SmallNumber(v, 8);
  }

  /** Two linked nodes with the IDs 7 and 9 and vectors of one component each, the second one a tombstone. */
  function TwoNodes(random: Rng): State {
    State([[0x3F80_0000], [0xBF80_0000]], [7, 9], [Node([[1]], false), Node([[0]], true)], map[7 := 0, 9 := 1], random,
          0, 0, 1)
  }

  /** Their payload: IDs, vectors, the nodes with level, list length and list, then the live count, the flags and the
      generator's text with its length. */
  lemma TwoNodesPayload(random: Rng)
    ensures PayloadOf(TwoNodes(random), [52, 50])
            == ([7, 0, 0, 0, 0, 0, 0, 0] + [9, 0, 0, 0, 0, 0, 0, 0])
             + (([0, 0, 128, 63] + [0, 0, 128, 191])
                + ((([0, 0, 0, 0] + [1, 0, 0, 0] + [1, 0, 0, 0]) + ([0, 0, 0, 0] + [1, 0, 0, 0] + [0, 0, 0, 0]))
                   + ([1, 0, 0, 0, 0, 0, 0, 0] + ([0, 1] + ([2, 0, 0, 0] + [52, 50])))))
  {
    hide LittleEndian, EncodeInts, EncodeRows, EncodeNodes, EncodeTail;
    TwoIds(7, 9);
    TwoRows();
    TwoLists();
    TwoNodesTail();
    var parts := PartsOf(TwoNodes(random), [52, 50]);
    assert parts.nodes == [[[1]], [[0]]] && parts.flags == [0, 1];
  }

  lemma TwoNodesTail()
    ensures EncodeTail([0, 1], [52, 50]) == [1, 0, 0, 0, 0, 0, 0, 0] + ([0, 1] + ([2, 0, 0, 0] + [52, 50]))
  {
    hide LittleEndian, EncodeInts, Deleted;
    TwoFlags();
    SmallNumbers(2);
  }

  lemma TwoInts(a: nat, b: nat, w: nat)
    ensures EncodeInts([a, b], w) == LittleEndian(a, w) + LittleEndian(b, w)
  {
    hide LittleEndian;
    assert [a, b][1..] == [b] && [b][1..] == [];
    assert EncodeInts([b], w) == LittleEndian(b, w) + [];
  }

  lemma TwoIds(a: nat, b: nat)
    requires a < 256 && b < 256
    ensures EncodeInts([a, b], 8) == [a, 0, 0, 0, 0, 0, 0, 0] + [b, 0, 0, 0, 0, 0, 0, 0]
  {
    hide LittleEndian;
    TwoInts(a, b, 8);
    SmallNumbers(a);
    SmallNumbers(b);
  }

  lemma OneInt(a: nat, w: nat)
    ensures EncodeInts([a], w) == LittleEndian(a, w)
  {
    hide LittleEndian;
    assert EncodeInts([a], w) == LittleEndian(a, w) + EncodeInts([], w);
  }

  lemma TwoRows()
    ensures EncodeRows([[0x3F80_0000], [0xBF80_0000]]) == [0, 0, 128, 63] + [0, 0, 128, 191]
  {
    OneInt(0x3F80_0000, 4);
    OneInt(0xBF80_0000, 4);
    WordBytes();
    hide LittleEndian, EncodeInts;
    var rows: seq<Vector> := [[0x3F80_0000], [0xBF80_0000]];
    assert rows[1..] == [[0xBF80_0000]] && rows[1..][1..] == [];
  }

  lemma WordBytes()
    ensures LittleEndian(0x3F80_0000, 4) == [0, 0, 128, 63] && LittleEndian(0xBF80_0000, 4) == [0, 0, 128, 191]
  {
    SmallNumber(63, 1);
    SmallNumber(191, 1);
    assert LittleEndian(0x3F80, 2) == [128] + LittleEndian(63, 1);
    assert LittleEndian(0xBF80, 2) == [128] + LittleEndian(191, 1);
  }

  lemma OneLink(a: nat)
    requires a < 256
    ensures EncodeNode([[a]]) == [0, 0, 0, 0] + [1, 0, 0, 0] + [a, 0, 0, 0]
  {
    hide LittleEndian, EncodeInts;
    SmallNumbers(0);
    SmallNumbers(1);
    SmallNumbers(a);
    OneInt(a, 4);
    var lists: Levels := [[a]];
    assert lists[1..] == [];
    assert EncodeLists(lists) == EncodeList([a]) + [];
  }

  lemma TwoLists()
    ensures EncodeNodes([[[1]], [[0]]])
            == ([0, 0, 0, 0] + [1, 0, 0, 0] + [1, 0, 0, 0]) + ([0, 0, 0, 0] + [1, 0, 0, 0] + [0, 0, 0, 0])
  {
    hide EncodeNode;
    OneLink(1);
    OneLink(0);
    var nodes: seq<Levels> := [[[1]], [[0]]];
    assert nodes[1..] == [[[0]]] && nodes[1..][1..] == [];
    assert EncodeNodes(nodes[1..]) == EncodeNode([[0]]) + [];
  }

  lemma TwoFlags()
    ensures Deleted([0, 1]) == 1 && EncodeInts([0, 1], 1) == [0, 1]
    ensures LittleEndian(1, 8) == [1, 0, 0, 0, 0, 0, 0, 0]
  {
    hide LittleEndian;
    TwoInts(0, 1, 1);
    SmallNumbers(0);
    SmallNumbers(1);
    var flags: seq<nat> := [0, 1];
    assert flags[1..] == [1] && flags[1..][1..] == [];
  }

  // ---------- Flat files ----------

  lemma {:induction false} FlatWidthsBefore(i: nat)
    requires i <= 8
    ensures Total(FlatFile.Widths()[..i]) == if i <= 4 then 4 * i else 16 + 8 * (i - 4)
    decreases i
  {
    if i > 0 {
      var widths, w := FlatFile.Widths(), if i - 1 < 4 then 4 else 8;
      FlatWidthsBefore(i - 1);
      TotalJoin(widths[..i - 1], [w]);
      assert widths[..i] == widths[..i - 1] + [w];
    }
  }

  lemma FlatFieldHolds(v: seq<nat>, i: nat, payload: seq<byte>)
    requires i < 8 && FieldsFit(v, FlatFile.Widths())
    ensures var from, w := 8 + (if i <= 4 then 4 * i else 16 + 8 * (i - 4)), if i < 4 then 4 else 8;
            Holds(FlatFile.MAGIC + EncodeFields(v, FlatFile.Widths()) + payload, from, from + w, v[i])
  {
    hide EncodeFields, LittleEndian, Value, Power, Total;
    var widths := FlatFile.Widths();
    var from, w, fields := Total(widths[..i]), widths[i], EncodeFields(v, widths);
    FlatWidthsBefore(i);
    FieldAt(v, widths, i);
    var b := FlatFile.MAGIC + fields + payload;
    SliceOfTail(FlatFile.MAGIC, fields, from, w);
    assert b[8 + from..8 + from + w] == (FlatFile.MAGIC + fields)[8 + from..8 + from + w];
    assert v[i] < Power(widths[i]);
    ValueOfLittleEndian(v[i], w);
  }

  /** The header of every saved flat index. The checksum covers the payload only. */
  lemma FlatHeader(s: FlatFile.Rows, p: Platform)
    requires FlatFile.RowsOk(s, p) && FlatFile.PayloadBytes(|s.ids|, s.dimension) <= UINT64_MAX
    ensures var b := FlatFile.FileOf(s);
            && |b| == 56 + FlatFile.PayloadBytes(|s.ids|, s.dimension) && b[..8] == [70, 86, 73, 78, 68, 69, 88, 0]
            && Holds(b, 8, 12, 1) && Holds(b, 12, 16, 56) && Holds(b, 16, 20, 0x01020304) && Holds(b, 20, 24, 1)
            && Holds(b, 24, 32, s.dimension) && Holds(b, 32, 40, |s.ids|) && Holds(b, 40, 48, |b| - 56)
            && Holds(b, 48, 56, Hash(FNV_OFFSET, b[56..]))
            && b[56..] == FlatFile.Payload(s)
  {
    FlatFile.PayloadSize(s, p);
    var size, sum := FlatFile.PayloadBytes(|s.ids|, s.dimension), Hash(FNV_OFFSET, FlatFile.Payload(s));
    var v := FlatFile.HeaderFields(s.dimension, |s.ids|, size, sum);
    FlatFieldsFit(s, p, sum);
    FlatParts(v, FlatFile.Payload(s));
    hide FlatFile.Payload, Hash, EncodeFields, Holds, FieldsFit, FlatFile.PayloadBytes;
    FlatFieldHolds(v, 0, FlatFile.Payload(s));
    FlatFieldHolds(v, 1, FlatFile.Payload(s));
    FlatFieldHolds(v, 2, FlatFile.Payload(s));
    FlatFieldHolds(v, 3, FlatFile.Payload(s));
    FlatFieldHolds(v, 4, FlatFile.Payload(s));
    FlatFieldHolds(v, 5, FlatFile.Payload(s));
    FlatFieldHolds(v, 6, FlatFile.Payload(s));
    FlatFieldHolds(v, 7, FlatFile.Payload(s));
  }

  lemma FlatParts(v: seq<nat>, payload: seq<byte>)
    requires |v| == 8
    ensures var b := FlatFile.MAGIC + EncodeFields(v, FlatFile.Widths()) + payload;
            |b| == 56 + |payload| && b[..8] == [70, 86, 73, 78, 68, 69, 88, 0] && b[56..] == payload
  {
    hide Total;
    FlatWidthsBefore(8);
    assert FlatFile.Widths()[..8] == FlatFile.Widths();
  }

  lemma FlatFieldsFit(s: FlatFile.Rows, p: Platform, sum: nat)
    requires FlatFile.RowsOk(s, p) && FlatFile.PayloadBytes(|s.ids|, s.dimension) <= UINT64_MAX && sum < MODULUS
    ensures FieldsFit(FlatFile.HeaderFields(s.dimension, |s.ids|, FlatFile.PayloadBytes(|s.ids|, s.dimension), sum),
                      FlatFile.Widths())
  {
    Powers();
    hide Power;
    var n, d := |s.ids|, s.dimension;
    assert n * 8 <= FlatFile.PayloadBytes(n, d);
  }
}
