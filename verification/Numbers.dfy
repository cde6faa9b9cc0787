/** The smaller and the larger of two numbers. */
module Numbers {
  function Least(a: nat, b: nat): nat {
    if a < b then a else b
  }

  function Most(a: nat, b: nat): nat {
    if a < b then b else a
  }
}
