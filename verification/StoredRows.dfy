/** What both snapshot formats start their payload with: external IDs, then one row per ID. */
module StoredRows {
  import opened Bytes
  import opened Checksum
  import opened Encoding
  import opened Streams
  import opened Ranking
  import opened Configuration
  import opened HnswState

  // ---------- The ID map ----------

  /** The inverse of an array of distinct IDs. */
  function IdMap(ids: seq<VectorId>): map<VectorId, nat> {
    if ids == [] then map[] else IdMap(ids[..|ids| - 1])[ids[|ids| - 1] := |ids| - 1]
  }

  lemma {:induction false} IdMapIsInverse(ids: seq<VectorId>)
    requires Distinct(ids)
    ensures IdsOk(ids, IdMap(ids))
  {
    if ids != [] {
      var init := ids[..|ids| - 1];
      IdMapIsInverse(init);
      assert ids == init + [ids[|ids| - 1]];
      assert ids[|ids| - 1] !in init;
      IdsGrow(init, IdMap(init), ids[|ids| - 1]);
    }
  }

  lemma InverseIsUnique(ids: seq<VectorId>, a: map<VectorId, nat>, b: map<VectorId, nat>)
    requires IdsOk(ids, a) && IdsOk(ids, b)
    ensures a == b
  {
  }

  // ---------- Reading and writing ----------

  method ReadIds(reader: Reader, count: nat) returns (ok: bool, ids: seq<VectorId>, idToNode: map<VectorId, nat>)
    requires reader.Inside()
    modifies reader
    ensures reader.Covers(old(reader.position), old(reader.checksum))
    ensures var parsed := ParseInts(old(reader.Rest()), count, 8);
            && ok == (parsed.Parsed? && Distinct(parsed.value))
            && (ok ==> parsed == Parsed(ids, reader.Rest()) && idToNode == IdMap(ids))
  {
    hide Hash, Power, Value, IdMap, IdsOk;
    ok, ids, idToNode := true, [], map[];
    ReadNothing(reader.data, reader.position, reader.checksum);
    PrependNone(ParseInts(reader.Rest(), count, 8));
    NoIds();
    var i := 0;
    while i < count
      invariant i == |ids| <= count && reader.Covers(old(reader.position), old(reader.checksum))
      invariant ParseInts(old(reader.Rest()), count, 8) == Prepend(ids, ParseInts(reader.Rest(), count - i, 8))
      invariant Distinct(ids) && idToNode == IdMap(ids) && IdsOk(ids, idToNode)
    {
      ghost var from := reader.position;
      var v: nat;
      ok, v := reader.ReadInteger(8, true);
      ReadOn(reader.data, old(reader.position), from, reader.position, old(reader.checksum));
      if !ok {
        return;
      }
      var id := NextId(reader.data[from..], v);
      PrependOne<nat>(ids, id, ParseInts(reader.Rest(), count - i - 1, 8));
      if id in idToNode {
        DuplicateStays(ids, idToNode, id, ParseInts(reader.Rest(), count - i - 1, 8));
        return false, ids, idToNode;
      }
      OneMoreId(ids, idToNode, id);
      ids, idToNode := ids + [id], idToNode[id := i];
      i := i + 1;
    }
    assert ids + [] == ids;
  }

  lemma NoIds()
    ensures IdMap([]) == map[] && IdsOk([], map[])
  {
  }

  lemma OneMoreId(ids: seq<VectorId>, idToNode: map<VectorId, nat>, id: VectorId)
    requires Distinct(ids) && idToNode == IdMap(ids) && IdsOk(ids, idToNode) && id !in idToNode
    ensures var (more, grown) := (ids + [id], idToNode[id := |ids|]);
            Distinct(more) && grown == IdMap(more) && IdsOk(more, grown)
  {
  }

  lemma DuplicateStays(ids: seq<VectorId>, idToNode: map<VectorId, nat>, id: VectorId, more: Parsed<seq<nat>>)
    requires IdsOk(ids, idToNode) && id in idToNode
    ensures var all := Prepend<nat>(ids + [id], more); all.Parsed? ==> !Distinct(all.value)
  {
    if more.Parsed? {
      var all := Prepend<nat>(ids + [id], more).value;
      assert all[idToNode[id]] == all[|ids|];
    }
  }

  /** Eight bytes make an ID. */
  function NextId(ghost bytes: seq<byte>, v: nat): (id: VectorId)
    requires ParseInt(bytes, 8).Parsed? && ParseInt(bytes, 8).value == v
    ensures id == v
  {
    ParseIntSound(bytes, 8);
    Powers();
    v
  }

  /** Four bytes make a component. */
  function NextWord(ghost bytes: seq<byte>, v: nat): (word: Word)
    requires ParseInt(bytes, 4).Parsed? && ParseInt(bytes, 4).value == v
    ensures word == v
  {
    ParseIntSound(bytes, 4);
    Powers();
    v
  }

  method ReadRow(reader: Reader, dimension: nat) returns (ok: bool, row: Vector)
    requires reader.Inside()
    modifies reader
    ensures reader.Covers(old(reader.position), old(reader.checksum))
    ensures ok == ParseInts(old(reader.Rest()), dimension, 4).Parsed?
    ensures ok ==> ParseInts(old(reader.Rest()), dimension, 4) == Parsed(row, reader.Rest())
  {
    hide Hash, Power, Value;
    ok, row := true, [];
    ReadNothing(reader.data, reader.position, reader.checksum);
    PrependNone(ParseInts(reader.Rest(), dimension, 4));
    var i := 0;
    while i < dimension
      invariant i == |row| <= dimension && reader.Covers(old(reader.position), old(reader.checksum))
      invariant ParseInts(old(reader.Rest()), dimension, 4) == Prepend(row, ParseInts(reader.Rest(), dimension - i, 4))
    {
      ghost var from := reader.position;
      var v: nat;
      ok, v := reader.ReadInteger(4, true);
      ReadOn(reader.data, old(reader.position), from, reader.position, old(reader.checksum));
      if !ok {
        return;
      }
      var word := NextWord(reader.data[from..], v);
      PrependOne<nat>(row, word, ParseInts(reader.Rest(), dimension - i - 1, 4));
      row := row + [word];
      i := i + 1;
    }
    assert row + [] == row;
  }

  method ReadRows(reader: Reader, count: nat, dimension: nat, p: Platform) returns (ok: bool, rows: seq<Vector>)
    requires reader.Inside()
    modifies reader
    ensures reader.Covers(old(reader.position), old(reader.checksum))
    ensures ok == ParseRows(old(reader.Rest()), count, dimension, p).Parsed?
    ensures ok ==> ParseRows(old(reader.Rest()), count, dimension, p) == Parsed(rows, reader.Rest())
  {
    hide Hash, ParseInts;
    ok, rows := true, [];
    ReadNothing(reader.data, reader.position, reader.checksum);
    PrependNone(ParseRows(reader.Rest(), count, dimension, p));
    var i := 0;
    while i < count
      invariant i == |rows| <= count && reader.Covers(old(reader.position), old(reader.checksum))
      invariant ParseRows(old(reader.Rest()), count, dimension, p)
                == Prepend(rows, ParseRows(reader.Rest(), count - i, dimension, p))
    {
      ghost var from := reader.position;
      var row: Vector;
      ok, row := ReadRow(reader, dimension);
      ReadOn(reader.data, old(reader.position), from, reader.position, old(reader.checksum));
      if !ok || !p.unitNorm(row) {
        return false, rows;
      }
      PrependOne(rows, row, ParseRows(reader.Rest(), count - i - 1, dimension, p));
      rows := rows + [row];
      i := i + 1;
    }
    assert rows + [] == rows;
    return true, rows;
  }

  method PutRows(sink: Sink, rows: seq<Vector>)
    modifies sink
    ensures sink.Took(old(sink.bytes), old(sink.checksum), EncodeRows(rows))
  {
    hide Hash, EncodeInts;
    var i := 0;
    while i < |rows|
      invariant i <= |rows|
      invariant sink.Owes(old(sink.bytes), old(sink.checksum), EncodeRows(rows), EncodeRows(rows[i..]))
    {
      assert rows[i..][1..] == rows[i + 1..];
      PutNext(sink.bytes, sink.checksum, EncodeInts(rows[i], 4), EncodeRows(rows[i + 1..]));
      sink.PutIntegers(rows[i], 4);
      i := i + 1;
    }
    PutDone(sink.bytes, sink.checksum);
  }
}
