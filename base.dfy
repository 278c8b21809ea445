/** Failure-carrying wrappers and the 32-bit integer behaviour of C# that the model needs. */
module Base {

  datatype Option<+T> = None | Some(value: T)

  datatype Outcome<+E> = Pass | Fail(error: E)

  datatype Result<+R, +E> = Success(value: R) | Failure(error: E)

  const Int32Min: int := -0x8000_0000
  const Int32Max: int := 0x7FFF_FFFF

  /** C#'s `int`. */
  newtype int32 = x: int | -0x8000_0000 <= x < 0x8000_0000

  predicate InInt32Range(x: int) {
    Int32Min <= x <= Int32Max
  }

  function Min(a: int, b: int): int {
    if a <= b then a else b
  }

  function Max(a: int, b: int): int {
    if a <= b then b else a
  }

  /** C# `int` arithmetic in an unchecked context: the int32 congruent to x modulo 2^32. */
  function Wrap32(x: int): (r: int32)
    ensures InInt32Range(x) ==> r as int == x
    ensures (x - r as int) % 0x1_0000_0000 == 0
  {
    var m := x % 0x1_0000_0000;
    if m <= Int32Max then m as int32 else (m - 0x1_0000_0000) as int32
  }

  /** `(int)d` for a double d holding the integral value x, in an unchecked context.
      Out of range the language leaves the result unspecified; the model takes the
      value the x64 runtime produces there (int.MinValue). */
  function DoubleToInt32(x: int): (r: int32)
    ensures InInt32Range(x) ==> r as int == x
    ensures !InInt32Range(x) ==> r as int == Int32Min
  {
    if InInt32Range(x) then x as int32 else Int32Min as int32
  }
}
