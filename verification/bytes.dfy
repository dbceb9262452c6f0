/** Go's `byte` (uint8) and the 8-bit arithmetic the µcore interpreter is built on.
    Dafny integers are unbounded, so every wrap-around of the Go code is written out here. */
module Bytes {

  /** An unsigned 8-bit value. */
  type Byte = x: int | 0 <= x < 256

  function Min(a: int, b: int): int { if a <= b then a else b }

  function Max(a: int, b: int): int { if a >= b then a else b }

  /** Go's `a + b` on two bytes: the sum wraps modulo 256. */
  function WrapAdd(a: Byte, b: Byte): (r: Byte)
    ensures r == a + b || r == a + b - 256
  {
    (a + b) % 256
  }

  /** Go's `a - b` on two bytes: the difference wraps modulo 256. */
  function WrapSub(a: Byte, b: Byte): (r: Byte)
    ensures r == a - b || r == a - b + 256
  {
    (a - b) % 256
  }

  /** Go's `a * b` on two bytes: the product wraps modulo 256. */
  function WrapMul(a: Byte, b: Byte): (r: Byte)
    ensures (a * b - r) % 256 == 0
  {
    (a * b) % 256
  }

  /** `saturationIncrease`: a wrapped result smaller than the value it came from clamps to 255. */
  function SaturationIncrease(val: Byte, compare: Byte): (r: Byte)
    ensures r >= val
    ensures r != val <==> val < compare
    ensures r != val ==> r == 255
  {
    if val < compare then 255 else val
  }

  /** `saturationDecrease`: a wrapped result larger than the value it came from clamps to 0. */
  function SaturationDecrease(val: Byte, compare: Byte): (r: Byte)
    ensures r <= val
    ensures r != val <==> val > compare
    ensures r != val ==> r == 0
  {
    if val > compare then 0 else val
  }

  /** One channel of `add`: the wrapped sum, checked by `saturationIncrease` against the old value. */
  function SaturatingAdd(x: Byte, y: Byte): (r: Byte)
    ensures r == Min(x + y, 255)
  {
    SaturationIncrease(WrapAdd(x, y), x)
  }

  /** One channel of `sub`: the wrapped difference, checked by `saturationDecrease` against the old value. */
  function SaturatingSub(x: Byte, y: Byte): (r: Byte)
    ensures r == Max(x - y, 0)
  {
    SaturationDecrease(WrapSub(x, y), x)
  }

  /** The wrap test of `saturationIncrease` fires exactly when the true sum overflows a byte. */
  lemma OverflowDetection(x: Byte, y: Byte)
    ensures WrapAdd(x, y) < x <==> x + y > 255
  {
  }

  /** The wrap test of `saturationDecrease` fires exactly when the true difference underflows. */
  lemma UnderflowDetection(x: Byte, y: Byte)
    ensures WrapSub(x, y) > x <==> x - y < 0
  {
  }
}
