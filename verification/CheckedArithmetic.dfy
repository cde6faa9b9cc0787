/** 64-bit arithmetic that fails instead of wrapping around. */
module CheckedArithmetic {
  import opened Wrappers
  import opened Configuration

  /** `checked_add` */
  function CheckedAdd(a: nat, b: nat): (r: Option<nat>)
    requires a <= UINT64_MAX
    ensures r == if a + b <= UINT64_MAX then Some(a + b) else None
  {
    if b > UINT64_MAX - a then None else Some(a + b)
  }

  /** `checked_multiply` */
  function CheckedMultiply(a: nat, b: nat): (r: Option<nat>)
    ensures r == if a * b <= UINT64_MAX then Some(a * b) else None
  {
    if a != 0 && b > UINT64_MAX / a then
      QuotientBound(a, b);
      None
    else
      if a != 0 then QuotientBound(a, b); Some(a * b) else Some(0)
  }

  lemma QuotientBound(a: nat, b: nat)
    requires a > 0
    ensures b > UINT64_MAX / a <==> a * b > UINT64_MAX
  {
    var q := UINT64_MAX / a;
    assert a * q <= UINT64_MAX < a * q + a;
    if b > q {
      assert a * b >= a * (q + 1);
    } else {
      assert a * b <= a * q;
    }
  }
}
