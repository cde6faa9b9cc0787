/** Printers and parsers for the parts that the snapshot formats share. A parser takes the bytes that
    are left and gives back a value and the bytes after it. */
module Encoding {
  import opened Bytes
  import opened Configuration
  import opened Ranking

  datatype Parsed<+T> = Parsed(value: T, rest: seq<byte>) | Failed

  // ---------- Integers ----------

  function ParseInt(bytes: seq<byte>, w: nat): Parsed<nat> {
    if |bytes| < w then Failed else Parsed(Value(bytes[..w]), bytes[w..])
  }

  lemma ParseIntSound(bytes: seq<byte>, w: nat)
    requires ParseInt(bytes, w).Parsed?
    ensures var v, rest := ParseInt(bytes, w).value, ParseInt(bytes, w).rest;
            v < Power(w) && bytes == LittleEndian(v, w) + rest
  {
    hide Value, LittleEndian, Power;
    var prefix := bytes[..w];
    LittleEndianOfValue(prefix);
    assert |prefix| == w && bytes == prefix + bytes[w..];
  }

  lemma ParseIntComplete(v: nat, w: nat, rest: seq<byte>)
    requires v < Power(w)
    ensures ParseInt(LittleEndian(v, w) + rest, w) == Parsed(v, rest)
  {
  }

  // ---------- Integers of one width ----------

  function EncodeInts(xs: seq<nat>, w: nat): (r: seq<byte>)
    ensures |r| == |xs| * w
  {
    if xs == [] then [] else LittleEndian(xs[0], w) + EncodeInts(xs[1..], w)
  }

  function ParseInts(bytes: seq<byte>, n: nat, w: nat): (r: Parsed<seq<nat>>)
    ensures r.Parsed? ==> |r.value| == n
  {
    if n == 0 then Parsed([], bytes) else
      match ParseInt(bytes, w)
      case Failed => Failed
      case Parsed(v, rest) =>
        match ParseInts(rest, n - 1, w)
        case Failed => Failed
        case Parsed(vs, rest') => Parsed([v] + vs, rest')
  }

  ghost predicate Fit(xs: seq<nat>, w: nat) {
    forall i :: 0 <= i < |xs| ==> xs[i] < Power(w)
  }

  lemma {:induction false} ParseIntsSound(bytes: seq<byte>, n: nat, w: nat)
    requires ParseInts(bytes, n, w).Parsed?
    ensures var r := ParseInts(bytes, n, w);
            Fit(r.value, w) && bytes == EncodeInts(r.value, w) + r.rest
    decreases n
  {
    hide LittleEndian, Value, Power, ParseInt;
    if n > 0 {
      ParseIntSound(bytes, w);
      var head := ParseInt(bytes, w);
      ParseIntsSound(head.rest, n - 1, w);
      var tail := ParseInts(head.rest, n - 1, w);
      ConsParts(head.value, tail.value);
      Regroup(LittleEndian(head.value, w), EncodeInts(tail.value, w), tail.rest);
    }
  }

  lemma {:induction false} ParseIntsComplete(xs: seq<nat>, w: nat, rest: seq<byte>)
    requires Fit(xs, w)
    ensures ParseInts(EncodeInts(xs, w) + rest, |xs|, w) == Parsed(xs, rest)
  {
    hide LittleEndian, Value, Power, ParseInt;
    if xs == [] {
      assert [] + rest == rest;
    } else {
      var tail := EncodeInts(xs[1..], w) + rest;
      Regroup(LittleEndian(xs[0], w), EncodeInts(xs[1..], w), rest);
      ParseIntComplete(xs[0], w, tail);
      ParseIntsComplete(xs[1..], w, rest);
      HeadAndTail(xs);
    }
  }

  /** Eight bytes always make an ID. */
  function AsIds(values: seq<nat>, bytes: seq<byte>, count: nat): (ids: seq<VectorId>)
    requires ParseInts(bytes, count, 8).Parsed? && ParseInts(bytes, count, 8).value == values
    ensures ids == values
  {
    ParseIntsSound(bytes, count, 8);
    Powers();
    assert forall i :: 0 <= i < |values| ==> values[i] < 0x1_0000_0000_0000_0000;
    values
  }

  // ---------- Integers of given widths ----------

  function EncodeFields(xs: seq<nat>, widths: seq<nat>): (r: seq<byte>)
    requires |xs| == |widths|
    ensures |r| == Total(widths)
  {
    if xs == [] then [] else LittleEndian(xs[0], widths[0]) + EncodeFields(xs[1..], widths[1..])
  }

  function Total(widths: seq<nat>): nat {
    if widths == [] then 0 else widths[0] + Total(widths[1..])
  }

  lemma {:induction false} TotalOfEqual(widths: seq<nat>, w: nat)
    requires forall i :: 0 <= i < |widths| ==> widths[i] == w
    ensures Total(widths) == |widths| * w
  {
    if widths != [] {
      TotalOfEqual(widths[1..], w);
    }
  }

  lemma {:induction false} TotalJoin(a: seq<nat>, b: seq<nat>)
    ensures Total(a + b) == Total(a) + Total(b)
    decreases |a|
  {
    if a == [] {
      assert a + b == b;
    } else {
      TotalJoin(a[1..], b);
      assert (a + b)[1..] == a[1..] + b;
    }
  }

  lemma {:induction false} EncodeFieldsJoin(xs: seq<nat>, ys: seq<nat>, v: seq<nat>, w: seq<nat>)
    requires |xs| == |v| && |ys| == |w|
    ensures EncodeFields(xs + ys, v + w) == EncodeFields(xs, v) + EncodeFields(ys, w)
    decreases |xs|
  {
    hide LittleEndian;
    if xs == [] {
      assert xs + ys == ys && v + w == w;
    } else {
      EncodeFieldsJoin(xs[1..], ys, v[1..], w);
      assert (xs + ys)[1..] == xs[1..] + ys && (v + w)[1..] == v[1..] + w;
      Regroup(LittleEndian(xs[0], v[0]), EncodeFields(xs[1..], v[1..]), EncodeFields(ys, w));
    }
  }

  function ParseFields(bytes: seq<byte>, widths: seq<nat>): (r: Parsed<seq<nat>>)
    ensures r.Parsed? ==> |r.value| == |widths|
    decreases |widths|, |bytes|
  {
    if widths == [] then Parsed([], bytes) else
      match ParseInt(bytes, widths[0])
      case Failed => Failed
      case Parsed(v, rest) =>
        match ParseFields(rest, widths[1..])
        case Failed => Failed
        case Parsed(vs, rest') => Parsed([v] + vs, rest')
  }

  ghost predicate FieldsFit(xs: seq<nat>, widths: seq<nat>) {
    |xs| == |widths| && forall i :: 0 <= i < |xs| ==> xs[i] < Power(widths[i])
  }

  lemma {:induction false} ParseFieldsSound(bytes: seq<byte>, widths: seq<nat>)
    requires ParseFields(bytes, widths).Parsed?
    ensures var r := ParseFields(bytes, widths);
            FieldsFit(r.value, widths) && bytes == EncodeFields(r.value, widths) + r.rest
    decreases |widths|
  {
    hide LittleEndian, Value, Power, ParseInt;
    if widths != [] {
      ParseIntSound(bytes, widths[0]);
      var head := ParseInt(bytes, widths[0]);
      ParseFieldsSound(head.rest, widths[1..]);
      var tail := ParseFields(head.rest, widths[1..]);
      ConsParts(head.value, tail.value);
      Regroup(LittleEndian(head.value, widths[0]), EncodeFields(tail.value, widths[1..]), tail.rest);
    }
  }

  lemma {:induction false} ParseFieldsComplete(xs: seq<nat>, widths: seq<nat>, rest: seq<byte>)
    requires FieldsFit(xs, widths)
    ensures ParseFields(EncodeFields(xs, widths) + rest, widths) == Parsed(xs, rest)
    decreases |widths|
  {
    hide LittleEndian, Value, Power, ParseInt;
    if xs == [] {
      assert [] + rest == rest;
    } else {
      var tail := EncodeFields(xs[1..], widths[1..]) + rest;
      Regroup(LittleEndian(xs[0], widths[0]), EncodeFields(xs[1..], widths[1..]), rest);
      ParseIntComplete(xs[0], widths[0], tail);
      ParseFieldsComplete(xs[1..], widths[1..], rest);
      HeadAndTail(xs);
    }
  }

  /** Fields that take up all the bytes. */
  lemma ParseFieldsExact(bytes: seq<byte>, widths: seq<nat>)
    requires |bytes| == Total(widths) && ParseFields(bytes, widths).Parsed?
    ensures var v := ParseFields(bytes, widths).value; FieldsFit(v, widths) && bytes == EncodeFields(v, widths)
  {
    ParseFieldsSound(bytes, widths);
    var r := ParseFields(bytes, widths);
    assert |bytes| == |EncodeFields(r.value, widths)| + |r.rest|;
    assert r.rest == [];
  }

  lemma {:induction false} ParseFieldsLength(bytes: seq<byte>, widths: seq<nat>)
    ensures ParseFields(bytes, widths).Parsed? <==> |bytes| >= Total(widths)
    ensures ParseFields(bytes, widths).Parsed? ==> ParseFields(bytes, widths).rest == bytes[Total(widths)..]
    decreases |widths|
  {
    hide Value, Power;
    if widths != [] && |bytes| >= widths[0] {
      ParseFieldsLength(bytes[widths[0]..], widths[1..]);
    }
  }

  lemma {:induction false} ParseFieldsExtend(bytes: seq<byte>, widths: seq<nat>, more: seq<byte>)
    requires ParseFields(bytes, widths).Parsed?
    ensures var r := ParseFields(bytes, widths);
            ParseFields(bytes + more, widths) == Parsed(r.value, r.rest + more)
    decreases |widths|
  {
    hide Value, Power;
    if widths != [] {
      assert (bytes + more)[..widths[0]] == bytes[..widths[0]];
      assert (bytes + more)[widths[0]..] == bytes[widths[0]..] + more;
      ParseFieldsExtend(bytes[widths[0]..], widths[1..], more);
    }
  }

  /** Parsing fields out of a longer input is parsing them out of its first bytes. */
  lemma FieldsOfPrefix(bytes: seq<byte>, widths: seq<nat>)
    ensures ParseFields(bytes, widths).Parsed? <==> |bytes| >= Total(widths)
    ensures |bytes| >= Total(widths) ==>
      && ParseFields(bytes[..Total(widths)], widths).Parsed?
      && ParseFields(bytes, widths)
         == Parsed(ParseFields(bytes[..Total(widths)], widths).value, bytes[Total(widths)..])
  {
    hide ParseFields, Total;
    ParseFieldsLength(bytes, widths);
    if |bytes| >= Total(widths) {
      var prefix, more := bytes[..Total(widths)], bytes[Total(widths)..];
      ParseFieldsLength(prefix, widths);
      ParseFieldsExtend(prefix, widths, more);
      assert prefix + more == bytes;
    }
  }

  // ---------- Rows of vector components ----------

  function EncodeRows(rows: seq<Vector>): seq<byte> {
    if rows == [] then [] else EncodeInts(rows[0], 4) + EncodeRows(rows[1..])
  }

  /** Each row must have finite components and a norm close to one. */
  function ParseRows(bytes: seq<byte>, count: nat, dimension: nat, p: Platform): (r: Parsed<seq<Vector>>)
    ensures r.Parsed? ==> |r.value| == count
    ensures r.Parsed? ==> forall i :: 0 <= i < count ==> |r.value[i]| == dimension && p.unitNorm(r.value[i])
    decreases count
  {
    if count == 0 then Parsed([], bytes) else
      match ParseInts(bytes, dimension, 4)
      case Failed => Failed
      case Parsed(words, rest) =>
        var row := AsVector(words, bytes, dimension);
        if !p.unitNorm(row) then Failed else
          match ParseRows(rest, count - 1, dimension, p)
          case Failed => Failed
          case Parsed(rows, rest') => Parsed([row] + rows, rest')
  }

  /** Four bytes always make a 32-bit word. */
  function AsVector(words: seq<nat>, bytes: seq<byte>, dimension: nat): (row: Vector)
    requires ParseInts(bytes, dimension, 4).Parsed? && ParseInts(bytes, dimension, 4).value == words
    ensures row == words
  {
    ParseIntsSound(bytes, dimension, 4);
    Powers();
    assert forall i :: 0 <= i < |words| ==> words[i] < 0x1_0000_0000;
    words
  }

  lemma {:induction false} ParseRowsSound(bytes: seq<byte>, count: nat, dimension: nat, p: Platform)
    requires ParseRows(bytes, count, dimension, p).Parsed?
    ensures var r := ParseRows(bytes, count, dimension, p);
            bytes == EncodeRows(r.value) + r.rest
    decreases count
  {
    hide LittleEndian, Value, Power, ParseInt;
    if count > 0 {
      ParseIntsSound(bytes, dimension, 4);
      var head := ParseInts(bytes, dimension, 4);
      ParseRowsSound(head.rest, count - 1, dimension, p);
      var tail := ParseRows(head.rest, count - 1, dimension, p);
      ConsParts(head.value, tail.value);
      Regroup(EncodeInts(head.value, 4), EncodeRows(tail.value), tail.rest);
    }
  }

  lemma {:induction false} ParseRowsComplete(rows: seq<Vector>, dimension: nat, p: Platform, rest: seq<byte>)
    requires forall i :: 0 <= i < |rows| ==> |rows[i]| == dimension && p.unitNorm(rows[i])
    ensures ParseRows(EncodeRows(rows) + rest, |rows|, dimension, p) == Parsed(rows, rest)
  {
    hide LittleEndian, Value, Power, ParseInt;
    if rows == [] {
      assert [] + rest == rest;
    } else {
      var tail := EncodeRows(rows[1..]) + rest;
      Regroup(EncodeInts(rows[0], 4), EncodeRows(rows[1..]), rest);
      Powers();
      ParseIntsComplete(rows[0], 4, tail);
      ParseRowsComplete(rows[1..], dimension, p, rest);
      HeadAndTail(rows);
    }
  }

  lemma {:induction false} RowsSize(rows: seq<Vector>, dimension: nat)
    requires forall i :: 0 <= i < |rows| ==> |rows[i]| == dimension
    ensures |EncodeRows(rows)| == |rows| * dimension * 4
  {
    if rows != [] {
      RowsSize(rows[1..], dimension);
      assert |rows| * dimension * 4 == dimension * 4 + (|rows| - 1) * dimension * 4;
    }
  }
}
