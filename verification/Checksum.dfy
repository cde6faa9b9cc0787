/** The 64-bit FNV-1a checksum, and why it sees every single-byte substitution. */
module Checksum {
  import opened Bytes

  const MODULUS: nat := 0x1_0000_0000_0000_0000
  const FNV_OFFSET: nat := 14695981039346656037
  const FNV_PRIME: nat := 1099511628211

  /** The inverse of the prime, which is odd, modulo 2^64, and the quotient left over. */
  const PRIME_INVERSE: nat := 14886173955864302971
  const PRIME_QUOTIENT: nat := 887285111055

  /** Exclusive or of the low `n` bits. */
  function XorBits(a: nat, b: nat, n: nat): (r: nat)
    decreases n, a, b
  {
    if n == 0 then 0 else (if a % 2 == b % 2 then 0 else 1) + 2 * XorBits(a / 2, b / 2, n - 1)
  }

  function TwoTo(n: nat): nat {
    if n == 0 then 1 else 2 * TwoTo(n - 1)
  }

  lemma {:induction false} XorBound(a: nat, b: nat, n: nat)
    ensures XorBits(a, b, n) < TwoTo(n)
    decreases n
  {
    if n > 0 { XorBound(a / 2, b / 2, n - 1); }
  }

  lemma Halves(bit: nat, rest: nat)
    requires bit < 2
    ensures (bit + 2 * rest) / 2 == rest && (bit + 2 * rest) % 2 == bit
  {
  }

  lemma {:induction false} XorInvolution(a: nat, b: nat, n: nat)
    requires a < TwoTo(n)
    ensures XorBits(XorBits(a, b, n), b, n) == a
    decreases n
  {
    if n > 0 {
      XorInvolution(a / 2, b / 2, n - 1);
      Halves(if a % 2 == b % 2 then 0 else 1, XorBits(a / 2, b / 2, n - 1));
    }
  }

  lemma {:induction false} XorCommutes(a: nat, b: nat, n: nat)
    ensures XorBits(a, b, n) == XorBits(b, a, n)
    decreases n
  {
    if n > 0 { XorCommutes(a / 2, b / 2, n - 1); }
  }

  function Xor(a: byte, b: byte): (r: byte)
  {
    XorBound(a, b, 8);
    assert TwoTo(4) == 16;
    assert TwoTo(8) == 256;
    XorBits(a, b, 8)
  }

  /** Each argument of the exclusive or can be recovered from the result and the other one. */
  lemma XorCancels(a: byte, c: byte, b: byte)
    requires Xor(a, b) == Xor(c, b)
    ensures a == c
  {
    assert TwoTo(4) == 16;
    assert TwoTo(8) == 256;
    XorInvolution(a, b, 8);
    XorInvolution(c, b, 8);
  }

  /** `checksum ^= byte` changes only the low byte. */
  function Mix(h: nat, b: byte): (r: nat)
    ensures h < MODULUS ==> r < MODULUS
  {
    hide Xor;
    assert h < MODULUS ==> h / 256 <= MODULUS / 256 - 1;
    256 * (h / 256) + Xor(h % 256, b)
  }

  function Scramble(x: nat): (r: nat)
    ensures r < MODULUS
  {
    (x * FNV_PRIME) % MODULUS
  }

  /** `update_checksum` */
  function Update(h: nat, b: byte): (r: nat)
    ensures r < MODULUS
  {
    Scramble(Mix(h, b))
  }

  /** The checksum after all of `bytes`, starting from `h`. */
  function Hash(h: nat, bytes: seq<byte>): (r: nat)
    ensures h < MODULUS ==> r < MODULUS
    decreases |bytes|
  {
    if bytes == [] then h else Hash(Update(h, bytes[0]), bytes[1..])
  }

  lemma RemainderUnique(n: int, m: int, z: int, x: int)
    requires 0 <= x < m && n == m * z + x
    ensures n % m == x
  {
    var d := z - n / m;
    assert m * d == n % m - x;
    assert d >= 1 ==> m * d >= m;
    assert d <= -1 ==> m * d <= -m;
  }

  /** Multiplication by a number that has an inverse modulo `m` can be undone. */
  lemma MultiplyUndone(x: nat, p: nat, q: nat, k: nat, m: nat)
    requires x < m && p * q == 1 + k * m
    ensures (((x * p) % m) * q) % m == x
  {
    var a, r := (x * p) / m, (x * p) % m;
    assert x * p == a * m + r;
    calc {
      r * q;
      (x * p - a * m) * q;
      x * (p * q) - a * m * q;
      { assert x * (p * q) == x * (1 + k * m); }
      x * (1 + k * m) - a * m * q;
      { assert x * (1 + k * m) == x + x * k * m; }
      x + x * k * m - a * m * q;
      { assert x * k * m - a * m * q == m * (x * k - a * q); }
      m * (x * k - a * q) + x;
    }
    RemainderUnique(r * q, m, x * k - a * q, x);
  }

  /** Multiplication by the prime is a bijection of the 64-bit words. */
  lemma ScrambleInjective(x: nat, y: nat)
    requires x < MODULUS && y < MODULUS && Scramble(x) == Scramble(y)
    ensures x == y
  {
    assert FNV_PRIME * PRIME_INVERSE == 1 + PRIME_QUOTIENT * MODULUS;
    MultiplyUndone(x, FNV_PRIME, PRIME_INVERSE, PRIME_QUOTIENT, MODULUS);
    MultiplyUndone(y, FNV_PRIME, PRIME_INVERSE, PRIME_QUOTIENT, MODULUS);
  }

  lemma MixInjective(h: nat, k: nat, b: byte, c: byte)
    requires Mix(h, b) == Mix(k, c)
    ensures h / 256 == k / 256 && Xor(h % 256, b) == Xor(k % 256, c)
  {
  }

  lemma UpdateInjectiveInState(h: nat, k: nat, b: byte)
    requires h < MODULUS && k < MODULUS && Update(h, b) == Update(k, b)
    ensures h == k
  {
    hide Scramble;
    ScrambleInjective(Mix(h, b), Mix(k, b));
    MixInjective(h, k, b, b);
    XorCancels(h % 256, k % 256, b);
  }

  lemma UpdateInjectiveInByte(h: nat, b: byte, c: byte)
    requires h < MODULUS && Update(h, b) == Update(h, c)
    ensures b == c
  {
    hide Scramble;
    ScrambleInjective(Mix(h, b), Mix(h, c));
    MixInjective(h, h, b, c);
    XorCommutes(h % 256, b, 8);
    XorCommutes(h % 256, c, 8);
    XorCancels(b, c, h % 256);
  }

  lemma {:induction false} HashJoin(h: nat, a: seq<byte>, b: seq<byte>)
    ensures Hash(h, a + b) == Hash(Hash(h, a), b)
    decreases |a|
  {
    hide Update;
    if a == [] {
      assert a + b == b;
    } else {
      HashJoin(Update(h, a[0]), a[1..], b);
      assert (a + b)[1..] == a[1..] + b;
    }
  }

  lemma HashOne(h: nat, b: byte)
    ensures Hash(h, [b]) == Update(h, b)
  {
  }

  /** One more byte. */
  lemma HashNext(h: nat, bytes: seq<byte>, i: nat)
    requires i < |bytes|
    ensures Hash(h, bytes[..i + 1]) == Update(Hash(h, bytes[..i]), bytes[i])
  {
    hide Hash, Update;
    HashJoin(h, bytes[..i], [bytes[i]]);
    HashOne(Hash(h, bytes[..i]), bytes[i]);
    assert bytes[..i + 1] == bytes[..i] + [bytes[i]];
  }

  lemma {:induction false} HashInjectiveInState(h: nat, k: nat, bytes: seq<byte>)
    requires h < MODULUS && k < MODULUS && Hash(h, bytes) == Hash(k, bytes)
    ensures h == k
    decreases |bytes|
  {
    hide Update;
    if bytes != [] {
      HashInjectiveInState(Update(h, bytes[0]), Update(k, bytes[0]), bytes[1..]);
      UpdateInjectiveInState(h, k, bytes[0]);
    }
  }

  /** Replacing one byte always changes the checksum. */
  lemma SubstitutionChangesHash(h: nat, bytes: seq<byte>, i: nat, b: byte)
    requires h < MODULUS && i < |bytes| && b != bytes[i]
    ensures Hash(h, bytes[i := b]) != Hash(h, bytes)
  {
    hide Hash;
    var before, after := bytes[..i], bytes[i + 1..];
    assert bytes == before + ([bytes[i]] + after) && bytes[i := b] == before + ([b] + after);
    var k := Hash(h, before);
    HashJoin(h, before, [bytes[i]] + after);
    HashJoin(h, before, [b] + after);
    HashJoin(k, [bytes[i]], after);
    HashJoin(k, [b], after);
    HashOne(k, bytes[i]);
    HashOne(k, b);
    hide Update;
    if Hash(h, bytes[i := b]) == Hash(h, bytes) {
      HashInjectiveInState(Update(k, bytes[i]), Update(k, b), after);
      UpdateInjectiveInByte(k, bytes[i], b);
    }
  }
}
