/** Integer ranges and the sign helpers of Rust's integer types. Integers here are
    unbounded; the ranges say which values the fixed-width types can hold. */
module Numbers {

  const I32Min: int := -0x8000_0000
  const I32Max: nat := 0x7fff_ffff
  const U64Max: nat := 0xffff_ffff_ffff_ffff

  /** `i32::abs`. */
  function Abs(x: int): (r: nat)
    ensures r == x || r == -x
  {
    if x < 0 then -x else x
  }

  /** The product of two numbers. Products of unknown numbers are written through this
      function, so that the facts the proofs use about them are the lemmas below. */
  function Product(a: int, b: int): int
  {
    a * b
  }

  /** `i32::signum`: -1, 0 or 1 as `x` is negative, zero or positive. */
  function Signum(x: int): (r: int)
    ensures -1 <= r <= 1
    ensures x * r == Abs(x)
  {
    if x < 0 then -1 else if x == 0 then 0 else 1
  }

  /** `i32::max`. */
  function Max(a: int, b: int): (r: int)
    ensures r >= a && r >= b && (r == a || r == b)
  {
    if a >= b then a else b
  }

  /** Multiplying by -1, 0 or 1 negates, clears or keeps. */
  lemma ProductByUnit(a: int, d: int)
    requires -1 <= d <= 1
    ensures Product(a, d) == if d == 1 then a else if d == -1 then -a else 0
  {
  }

  /** One more factor adds the other once more. */
  lemma ProductSucc(i: int, d: int)
    ensures Product(i + 1, d) == Product(i, d) + d
  {
  }

  lemma ProductZero(d: int)
    ensures Product(0, d) == 0
  {
  }
}
