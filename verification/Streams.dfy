/** The byte streams both snapshot formats are written to and read from, each with the running
    checksum that the serializers update as they go. */
module Streams {
  import opened Bytes
  import opened Checksum
  import opened Encoding

  // ---------- Writing ----------

  class Sink {
    var bytes: seq<byte>
    var checksum: nat

    constructor ()
      ensures bytes == [] && checksum == FNV_OFFSET
    {
      bytes, checksum := [], FNV_OFFSET;
    }

    /** `x` was put since the bytes were `b` and the checksum was `c`. */
    ghost predicate Took(b: seq<byte>, c: nat, x: seq<byte>)
      reads this
    {
      bytes == b + x && checksum == Hash(c, x)
    }

    /** Putting `rest` completes putting `whole`. */
    ghost predicate Owes(b: seq<byte>, c: nat, whole: seq<byte>, rest: seq<byte>)
      reads this
    {
      bytes + rest == b + whole && Hash(checksum, rest) == Hash(c, whole)
    }

    method Put(b: byte)
      modifies this
      ensures Took(old(bytes), old(checksum), [b])
    {
      bytes := bytes + [b];
      HashOne(checksum, b);
      checksum := Update(checksum, b);
    }

    method PutAll(x: seq<byte>)
      modifies this
      ensures Took(old(bytes), old(checksum), x)
    {
      hide Hash;
      var i := 0;
      while i < |x|
        invariant i <= |x| && Owes(old(bytes), old(checksum), x, x[i..])
      {
        HeadAndTail(x[i..]);
        PutNext(bytes, checksum, [x[i]], x[i + 1..]);
        Put(x[i]);
        i := i + 1;
      }
      PutDone(bytes, checksum);
    }

    method PutInteger(v: nat, w: nat)
      modifies this
      ensures Took(old(bytes), old(checksum), LittleEndian(v, w))
    {
      hide Hash;
      var value, left := v, w;
      while left > 0
        invariant Owes(old(bytes), old(checksum), LittleEndian(v, w), LittleEndian(value, left))
      {
        PutNext(bytes, checksum, [value % 256], LittleEndian(value / 256, left - 1));
        Put(value % 256);
        value, left := value / 256, left - 1;
      }
      PutDone(bytes, checksum);
    }

    /** Integers of one width, one after the other. */
    method PutIntegers(xs: seq<nat>, w: nat)
      modifies this
      ensures Took(old(bytes), old(checksum), EncodeInts(xs, w))
    {
      hide Hash, LittleEndian;
      var i := 0;
      while i < |xs|
        invariant i <= |xs| && Owes(old(bytes), old(checksum), EncodeInts(xs, w), EncodeInts(xs[i..], w))
      {
        PutNext(bytes, checksum, LittleEndian(xs[i], w), EncodeInts(xs[i..][1..], w));
        PutInteger(xs[i], w);
        assert xs[i..][1..] == xs[i + 1..];
        i := i + 1;
      }
      PutDone(bytes, checksum);
    }

    method PutFields(xs: seq<nat>, widths: seq<nat>)
      requires |xs| == |widths|
      modifies this
      ensures Took(old(bytes), old(checksum), EncodeFields(xs, widths))
    {
      hide Hash, LittleEndian;
      var i := 0;
      while i < |xs|
        invariant i <= |xs|
        invariant Owes(old(bytes), old(checksum), EncodeFields(xs, widths), EncodeFields(xs[i..], widths[i..]))
      {
        PutNext(bytes, checksum, LittleEndian(xs[i], widths[i]), EncodeFields(xs[i..][1..], widths[i..][1..]));
        PutInteger(xs[i], widths[i]);
        assert xs[i..][1..] == xs[i + 1..] && widths[i..][1..] == widths[i + 1..];
        i := i + 1;
      }
      PutDone(bytes, checksum);
    }
  }

  lemma PutNext(bytes: seq<byte>, c: nat, x: seq<byte>, rest: seq<byte>)
    ensures bytes + (x + rest) == (bytes + x) + rest
    ensures Hash(c, x + rest) == Hash(Hash(c, x), rest)
  {
    HashJoin(c, x, rest);
  }

  lemma PutDone(bytes: seq<byte>, c: nat)
    ensures bytes + [] == bytes && Hash(c, []) == c
  {
  }

  // ---------- Reading ----------

  class Reader {
    const data: seq<byte>
    var position: nat
    var checksum: nat

    constructor (data: seq<byte>)
      ensures this.data == data && position == 0 && checksum == FNV_OFFSET && Inside()
    {
      this.data, position, checksum := data, 0, FNV_OFFSET;
    }

    ghost predicate Inside()
      reads this
    {
      position <= |data|
    }

    ghost function Rest(): seq<byte>
      requires Inside()
      reads this
    {
      data[position..]
    }

    /** All that was read since position `from`, when the checksum was `c`, went into the checksum. */
    ghost predicate Covers(from: nat, c: nat)
      reads this
    {
      from <= position <= |data| && checksum == Hash(c, data[from..position])
    }

    /** `read_integer`; the stored checksum is the one integer that is not covered by the checksum. */
    method ReadInteger(w: nat, covered: bool) returns (ok: bool, v: nat)
      requires Inside()
      modifies this
      ensures Inside() && ok == ParseInt(old(Rest()), w).Parsed?
      ensures ok ==> ParseInt(old(Rest()), w) == Parsed(v, Rest()) && position == old(position) + w
      ensures if covered then Covers(old(position), old(checksum)) else checksum == old(checksum)
    {
      hide Update, Hash, Value, Power;
      ok, v := position + w <= |data|, 0;
      ReadNothing(data, position, checksum);
      if !ok {
        return;
      }
      var chunk := data[position..position + w];
      NothingRead(checksum);
      assert chunk == old(Rest())[..w];
      var i := 0;
      while i < w
        invariant i <= w && position == old(position)
        invariant v == Value(chunk[..i])
        invariant checksum == if covered then Hash(old(checksum), chunk[..i]) else old(checksum)
      {
        if covered {
          HashNext(old(checksum), chunk, i);
          checksum := Update(checksum, chunk[i]);
        }
        ValueNext(chunk, i);
        v := v + chunk[i] * Power(i);
        i := i + 1;
      }
      assert chunk[..w] == chunk;
      position := position + w;
    }

    /** The next `n` bytes. */
    method ReadBytes(n: nat) returns (ok: bool, chunk: seq<byte>)
      requires Inside()
      modifies this
      ensures Covers(old(position), old(checksum)) && ok == (old(position) + n <= |data|)
      ensures ok ==> chunk == old(Rest())[..n] && Rest() == old(Rest())[n..] && position == old(position) + n
    {
      hide Update, Hash;
      ok, chunk := position + n <= |data|, [];
      ReadNothing(data, position, checksum);
      if !ok {
        return;
      }
      chunk := data[position..position + n];
      NothingRead(checksum);
      var i := 0;
      while i < n
        invariant i <= n && position == old(position)
        invariant checksum == Hash(old(checksum), chunk[..i])
      {
        HashNext(old(checksum), chunk, i);
        checksum := Update(checksum, chunk[i]);
        i := i + 1;
      }
      assert chunk[..n] == chunk;
      position := position + n;
    }

    /** Integers of the given widths, all covered by the checksum. */
    method ReadFields(widths: seq<nat>) returns (ok: bool, values: seq<nat>)
      requires Inside()
      modifies this
      ensures Covers(old(position), old(checksum)) && ok == ParseFields(old(Rest()), widths).Parsed?
      ensures ok ==> ParseFields(old(Rest()), widths) == Parsed(values, Rest()) && |values| == |widths|
    {
      hide Hash, Power, Value;
      ok, values := true, [];
      var i := 0;
      ReadNothing(data, position, checksum);
      PrependNone(ParseFields(Rest(), widths));
      assert widths[0..] == widths;
      while i < |widths|
        invariant i == |values| <= |widths| && Covers(old(position), old(checksum))
        invariant ParseFields(old(Rest()), widths) == Prepend(values, ParseFields(Rest(), widths[i..]))
      {
        ghost var from, c := position, checksum;
        var v: nat;
        ok, v := ReadInteger(widths[i], true);
        ReadOn(data, old(position), from, position, old(checksum));
        if !ok {
          return;
        }
        assert widths[i..][1..] == widths[i + 1..];
        PrependOne(values, v, ParseFields(Rest(), widths[i + 1..]));
        values := values + [v];
        i := i + 1;
      }
      assert values + [] == values;
    }
  }

  lemma NothingRead(c: nat)
    ensures Hash(c, []) == c && Value([]) == 0
  {
  }

  lemma ReadNothing(data: seq<byte>, at: nat, c: nat)
    requires at <= |data|
    ensures Hash(c, data[at..at]) == c
  {
  }

  lemma ReadOn(data: seq<byte>, from: nat, middle: nat, to: nat, c: nat)
    requires from <= middle <= to <= |data|
    ensures Hash(Hash(c, data[from..middle]), data[middle..to]) == Hash(c, data[from..to])
  {
    hide Hash;
    HashJoin(c, data[from..middle], data[middle..to]);
    assert data[from..middle] + data[middle..to] == data[from..to];
  }

  /** Values parsed before go in front of those parsed after. */
  function Prepend<T>(done: seq<T>, more: Parsed<seq<T>>): Parsed<seq<T>> {
    match more
    case Failed => Failed
    case Parsed(values, rest) => Parsed(done + values, rest)
  }

  lemma PrependNone<T>(more: Parsed<seq<T>>)
    ensures Prepend([], more) == more
  {
    if more.Parsed? {
      assert [] + more.value == more.value;
    }
  }

  lemma PrependOne<T>(done: seq<T>, x: T, more: Parsed<seq<T>>)
    ensures Prepend(done + [x], more) == Prepend(done, Prepend([x], more))
  {
    if more.Parsed? {
      assert done + [x] + more.value == done + ([x] + more.value);
    }
  }
}
