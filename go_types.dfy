/** Go's fixed-width integer types and the optional-value wrapper used across the model. */
module GoTypes {

  /** Go's `byte`. */
  type byte = b: int | 0 <= b < 0x100

  /** Go's `rune`: a signed 32-bit integer, not necessarily a valid code point. */
  type rune = r: int | -0x8000_0000 <= r < 0x8000_0000

  const TwoTo63: int := 0x8000_0000_0000_0000

  /** Go's `int` on a 64-bit platform. */
  type int64 = x: int | -TwoTo63 <= x < TwoTo63

  /** Two's-complement wrap-around of an exact sum into Go's 64-bit `int`. */
  function Wrap64(x: int): (r: int64)
    ensures -TwoTo63 <= x < TwoTo63 ==> r == x
    ensures (r - x) % (2 * TwoTo63) == 0
  {
    (x + TwoTo63) % (2 * TwoTo63) - TwoTo63
  }

  datatype Option<T> = None | Some(value: T)
}
