/**
  Numeric primitives shared by the particle pipeline: the optional value, the
  single-precision float as far as its special values matter, truncating
  casts to a 32-bit `int`, and 32-bit wrap-around.

  Floats are modelled as `real` without rounding. Only the coordinates that the
  coordinate mapper hands over can carry NaN or an infinity, so only those use
  the tagged `Float` type.
 */
module Numerics {

  datatype Option<+T> = None | Some(value: T)

  /** A float component whose NaN and infinite values are kept apart from the
      finite ones. The sign of an infinity is never consulted, so it is dropped. */
  datatype Float = Finite(v: real) | NaN | Infinity

  /** One axis of the validity gate: the component is finite and non-zero. */
  predicate IsUsable(c: Float)
  {
    c.Finite? && c.v != 0.0
  }

  /** The product of a float and a positive finite constant. */
  function ScaleBy(c: Float, k: real): (r: Float)
    requires 0.0 < k
    ensures r.Finite? <==> c.Finite?
    ensures r.NaN? <==> c.NaN?
  {
    match c
    case Finite(v) => Finite(v * k)
    case NaN => NaN
    case Infinity => Infinity
  }

  const Int32Min: int := -0x8000_0000
  const Int32Max: int := 0x7FFF_FFFF
  const Int32Modulus: int := 0x1_0000_0000

  predicate InInt32(n: int)
  {
    Int32Min <= n <= Int32Max
  }

  /** Truncation toward zero, the rounding of a C# `(int)` cast. */
  function Trunc(r: real): (n: int)
    ensures 0.0 <= r ==> 0 <= n && n as real <= r < n as real + 1.0
    ensures r < 0.0 ==> n <= 0 && n as real - 1.0 < r <= n as real
  {
    if 0.0 <= r then r.Floor else -((-r).Floor)
  }

  /** An unchecked C# `(int)` cast of a float. The language leaves the result
      unspecified when the operand is NaN, infinite or outside the `int` range;
      those cases yield `None`. */
  function CastToInt(c: Float): (r: Option<int>)
    ensures r.Some? ==> c.Finite? && InInt32(r.value) && r.value as real - 1.0 < c.v < r.value as real + 1.0
    ensures c.Finite? && InInt32(Trunc(c.v)) ==> r.Some?
  {
    if c.Finite? && InInt32(Trunc(c.v)) then Some(Trunc(c.v)) else None
  }

  /** Two's-complement wrap-around of an integer result to 32 bits: the one
      32-bit value congruent to `n` modulo 2^32. */
  function Wrap32(n: int): (r: int)
    ensures InInt32(r)
    ensures (r - n) % Int32Modulus == 0
    ensures InInt32(n) ==> r == n
  {
    (n - Int32Min) % Int32Modulus + Int32Min
  }

  /** Overflow wraps rather than saturates: one past `int.MaxValue` is
      `int.MinValue`, and the sum of two `int.MinValue`s is 0. */
  lemma Wrap32Overflow()
    ensures Wrap32(Int32Max + 1) == Int32Min
    ensures Wrap32(Int32Min + Int32Min) == 0
  {
  }

  function Min(a: int, b: int): (m: int)
    ensures m <= a && m <= b
    ensures m == a || m == b
  {
    if a < b then a else b
  }
}
