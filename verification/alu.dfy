/** The accumulator-updating opcodes of a µcore. In xmas mode none of them writes the blue channel. */
module Alu {
  import opened Bytes
  import opened Colors

  /** `add`: each channel grows by its operand and clamps at 255 instead of wrapping. */
  function Add(xmas: bool, acc: Rgb, op: Rgb): (res: Rgb)
    ensures res.r == Min(acc.r + op.r, 255)
    ensures res.g == Min(acc.g + op.g, 255)
    ensures res.b == if xmas then acc.b else Min(acc.b + op.b, 255)
  {
    Rgb(SaturatingAdd(acc.r, op.r), SaturatingAdd(acc.g, op.g),
        if xmas then acc.b else SaturatingAdd(acc.b, op.b))
  }

  /** `sub`: each channel shrinks by its operand and clamps at 0 instead of wrapping. */
  function Sub(xmas: bool, acc: Rgb, op: Rgb): (res: Rgb)
    ensures res.r == Max(acc.r - op.r, 0)
    ensures res.g == Max(acc.g - op.g, 0)
    ensures res.b == if xmas then acc.b else Max(acc.b - op.b, 0)
  {
    Rgb(SaturatingSub(acc.r, op.r), SaturatingSub(acc.g, op.g),
        if xmas then acc.b else SaturatingSub(acc.b, op.b))
  }

  /** `mul`: each channel is multiplied by its operand, keeping the low eight bits of the product. */
  function Mul(xmas: bool, acc: Rgb, op: Rgb): (res: Rgb)
    ensures (acc.r * op.r - res.r) % 256 == 0
    ensures (acc.g * op.g - res.g) % 256 == 0
    ensures xmas ==> res.b == acc.b
    ensures !xmas ==> (acc.b * op.b - res.b) % 256 == 0
  {
    Rgb(WrapMul(acc.r, op.r), WrapMul(acc.g, op.g), if xmas then acc.b else WrapMul(acc.b, op.b))
  }

  /** `set`: red and green take the operands; blue does too unless in xmas mode. */
  function Set(xmas: bool, acc: Rgb, op: Rgb): Rgb
  {
    Rgb(op.r, op.g, if xmas then acc.b else op.b)
  }

  /** `tryDiv`: integer division of one channel, skipped when the divisor is zero. */
  function TryDiv(val: Byte, divisor: Byte): (res: Byte)
    ensures divisor == 0 ==> res == val
    ensures divisor != 0 ==> res * divisor <= val < (res + 1) * divisor
  {
    if divisor != 0 then val / divisor else val
  }

  /** `div`: `tryDiv` on red and green, and on blue unless in xmas mode. */
  function Div(xmas: bool, acc: Rgb, op: Rgb): (res: Rgb)
    ensures op.r == 0 ==> res.r == acc.r
    ensures op.r != 0 ==> res.r * op.r <= acc.r < (res.r + 1) * op.r
    ensures op.g == 0 ==> res.g == acc.g
    ensures op.g != 0 ==> res.g * op.g <= acc.g < (res.g + 1) * op.g
    ensures xmas || op.b == 0 ==> res.b == acc.b
    ensures !xmas && op.b != 0 ==> res.b * op.b <= acc.b < (res.b + 1) * op.b
  {
    Rgb(TryDiv(acc.r, op.r), TryDiv(acc.g, op.g), if xmas then acc.b else TryDiv(acc.b, op.b))
  }

  /** The ROTATE opcode, done through `set`: a cyclic shift normally, a red/green swap in xmas mode. */
  function Rotate(xmas: bool, acc: Rgb): (res: Rgb)
    ensures !xmas ==> res == Rgb(acc.b, acc.r, acc.g)
    ensures xmas ==> res == Rgb(acc.g, acc.r, acc.b)
  {
    if xmas then Set(xmas, acc, Rgb(acc.g, acc.r, acc.b))
    else Set(xmas, acc, Rgb(acc.b, acc.r, acc.g))
  }

  /** Outside xmas mode ROTATE is a 3-cycle; in xmas mode it is a swap. */
  lemma RotateOrder(acc: Rgb)
    ensures Rotate(false, Rotate(false, Rotate(false, acc))) == acc
    ensures Rotate(false, acc) != acc <==> !(acc.r == acc.g == acc.b)
    ensures Rotate(true, Rotate(true, acc)) == acc
  {
  }
}
