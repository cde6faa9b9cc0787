/** Bytes and little-endian integers. */
module Bytes {
  type byte = b: int | 0 <= b < 256

  function Power(w: nat): (r: nat)
    ensures r > 0
  {
    if w == 0 then 1 else 256 * Power(w - 1)
  }

  lemma Powers()
    ensures Power(1) == 256 && Power(4) == 0x1_0000_0000 && Power(8) == 0x1_0000_0000_0000_0000
  {
  }

  /** `write_integer`: the low `w` bytes of `v`, least significant first. */
  function LittleEndian(v: nat, w: nat): (r: seq<byte>)
    ensures |r| == w
  {
    if w == 0 then [] else [v % 256] + LittleEndian(v / 256, w - 1)
  }

  /** `read_integer` */
  function Value(bytes: seq<byte>): (v: nat)
    ensures v < Power(|bytes|)
  {
    if bytes == [] then 0 else bytes[0] + 256 * Value(bytes[1..])
  }

  lemma {:induction false} ValueOfLittleEndian(v: nat, w: nat)
    requires v < Power(w)
    ensures Value(LittleEndian(v, w)) == v
  {
    if w > 0 {
      ValueOfLittleEndian(v / 256, w - 1);
      assert LittleEndian(v, w)[1..] == LittleEndian(v / 256, w - 1);
    }
  }

  lemma {:induction false} LittleEndianOfValue(bytes: seq<byte>)
    ensures LittleEndian(Value(bytes), |bytes|) == bytes
  {
    if bytes != [] {
      LittleEndianOfValue(bytes[1..]);
      assert Value(bytes) / 256 == Value(bytes[1..]) && Value(bytes) % 256 == bytes[0];
      assert bytes == [bytes[0]] + bytes[1..];
    }
  }

  /** One more significant byte. */
  lemma {:induction false} ValueNext(bytes: seq<byte>, i: nat)
    requires i < |bytes|
    ensures Value(bytes[..i + 1]) == Value(bytes[..i]) + bytes[i] * Power(i)
    decreases |bytes|
  {
    assert bytes[..i + 1][1..] == bytes[1..][..i];
    if i > 0 {
      ValueNext(bytes[1..], i - 1);
      assert bytes[..i][1..] == bytes[1..][..i - 1];
      assert 256 * (bytes[i] * Power(i - 1)) == bytes[i] * Power(i);
    }
  }

  lemma Regroup(a: seq<byte>, b: seq<byte>, c: seq<byte>)
    ensures a + (b + c) == (a + b) + c
  {
  }

  lemma HeadAndTail<T>(xs: seq<T>)
    requires xs != []
    ensures xs == [xs[0]] + xs[1..]
  {
  }

  lemma ConsParts<T>(x: T, xs: seq<T>)
    ensures ([x] + xs)[0] == x && ([x] + xs)[1..] == xs
  {
  }
}
