/** Value types shared by the whole project. */
module Wrappers {

  datatype Option<+T> = None | Some(value: T)

  datatype Result<+R, +E> = Success(value: R) | Failure(error: E)

  /** A C `uint8_t`. */
  newtype Byte = x: int | 0 <= x < 256

  const TWO_TO_THE_8 := 0x100
  const TWO_TO_THE_16 := 0x1_0000
  const TWO_TO_THE_32 := 0x1_0000_0000

  /** The value a C conversion to `int8_t` gives (two's complement). */
  function ToInt8(x: int): (r: int)
    ensures -128 <= r < 128 && (r - x) % TWO_TO_THE_8 == 0
  {
    (x + 128) % TWO_TO_THE_8 - 128
  }

  /** The value a C conversion to `int16_t` gives (two's complement). */
  function ToInt16(x: int): (r: int)
    ensures -0x8000 <= r < 0x8000 && (r - x) % TWO_TO_THE_16 == 0
  {
    (x + 0x8000) % TWO_TO_THE_16 - 0x8000
  }

  function Min(a: nat, b: nat): nat {
    if a <= b then a else b
  }

  lemma Assoc<T>(a: seq<T>, b: seq<T>, c: seq<T>)
    ensures (a + b) + c == a + (b + c)
  {
  }
}
