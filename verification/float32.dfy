/** The `f32` values the RGBM codec computes with, and Rust's float-to-`u8` cast.

    Finite values are held as exact reals: IEEE-754 rounding, overflow to an
    infinity and signed zero are not modelled. What is modelled is the one place
    the codec leaves the finite numbers: a division by zero, which yields NaN or an
    infinity, and how such a value then travels through products and the cast. */
module Float32 {

  /** An `f32`: a finite value, NaN, or an infinity of the given sign. */
  datatype F32 = Finite(v: real) | NaN | Inf(positive: bool)

  /** A `u8`. */
  type Byte = b: int | 0 <= b < 256

  /** `f32::MIN`, the most negative finite `f32`. */
  const F32_MIN: real := -340282346638528859811704183484516925440.0

  /** `f32::ceil` on a finite value: the least integer not below `x`. */
  function Ceil(x: real): (c: int)
    ensures c as real - 1.0 < x <= c as real
  {
    -((-x).Floor)
  }

  /** `f32::max` on finite values. */
  function Max(a: real, b: real): (r: real)
    ensures a <= r && b <= r
    ensures r == a || r == b
  {
    if a < b then b else a
  }

  /** IEEE division `x / d` of two finite values. */
  function Div(x: real, d: real): (r: F32)
    ensures r.Finite? <==> d != 0.0
    ensures r.Finite? ==> r.v * d == x
    ensures r.NaN? <==> d == 0.0 && x == 0.0
  {
    if d != 0.0 then Finite(x / d)
    else if x == 0.0 then NaN
    else Inf(x > 0.0)
  }

  /** IEEE multiplication: NaN absorbs, an infinity times zero is NaN,
      otherwise the sign of an infinite product is the product of the signs. */
  function Mul(a: F32, b: F32): (r: F32)
    ensures a.Finite? && b.Finite? ==> r == Finite(a.v * b.v)
    ensures a.NaN? || b.NaN? ==> r.NaN?
  {
    if a.NaN? || b.NaN? then NaN
    else if a.Finite? && b.Finite? then Finite(a.v * b.v)
    else if a.Inf? && b.Inf? then Inf(a.positive == b.positive)
    else if a.Inf? then (if b.v == 0.0 then NaN else Inf(a.positive == (b.v > 0.0)))
    else (if a.v == 0.0 then NaN else Inf(b.positive == (a.v > 0.0)))
  }

  /** `f.ceil()` */
  function CeilF(f: F32): (r: F32)
    ensures f.Finite? ==> r.Finite? && r.v - 1.0 < f.v <= r.v
    ensures !f.Finite? ==> r == f
  {
    if f.Finite? then Finite(Ceil(f.v) as real) else f
  }

  /** The numeric cast `f as u8`: it truncates toward zero and saturates to
      [0, 255]; NaN becomes 0 (the Rust Reference, "Type cast expressions"). */
  function ToU8(f: F32): (b: Byte)
    ensures f.NaN? ==> b == 0
    ensures f.Inf? ==> b == if f.positive then 255 else 0
    ensures f.Finite? && 0.0 <= f.v < 256.0 ==> b as real <= f.v < b as real + 1.0
    ensures f.Finite? && f.v >= 255.0 ==> b == 255
    ensures f.Finite? && f.v < 1.0 ==> b == 0
  {
    match f
    case NaN => 0
    case Inf(positive) => if positive then 255 else 0
    case Finite(v) => if v < 0.0 then 0 else if v >= 255.0 then 255 else v.Floor
  }
}
