/** The 32-bit signed integers of C# and its unchecked (wrapping) arithmetic. */
module CSharpInt {

  const MinInt32: int := -0x8000_0000
  const MaxInt32: int := 0x7FFF_FFFF

  /** C#'s `int`. */
  type Int32 = x: int | -0x8000_0000 <= x <= 0x7FFF_FFFF

  /** Two's-complement reduction of an unbounded integer to 32 bits. */
  function Wrap(x: int): (r: Int32)
    ensures MinInt32 <= x <= MaxInt32 ==> r == x
    ensures (r - x) % 0x1_0000_0000 == 0
  {
    (x + 0x8000_0000) % 0x1_0000_0000 - 0x8000_0000
  }

  /** Unary minus in an unchecked context: `-int.MinValue == int.MinValue`. */
  function Negate(x: Int32): Int32 {
    Wrap(-(x as int))
  }

  /** Binary minus in an unchecked context. */
  function Subtract(x: Int32, y: Int32): Int32 {
    Wrap(x as int - y as int)
  }

  /** Negation wraps at exactly one input, the smallest `int`. */
  lemma NegateOverflow(x: Int32)
    ensures Negate(x) == (if x == MinInt32 then MinInt32 else -(x as int))
  {
  }

  /** `-x - 1` evaluated with wrapping equals the unbounded `-x - 1` for every `int`:
      the two overflows at `int.MinValue` cancel (it is the bitwise complement). */
  lemma NegateMinusOneExact(x: Int32)
    ensures Subtract(Negate(x), 1) == -(x as int) - 1
  {
  }
}
