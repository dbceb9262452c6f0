# colorcomp µcore interpreter, modelled in Dafny

colorcomp drives a Unicorn HAT LED matrix from 64 independent "µcores". Each µcore owns one
contiguous slice of a shared byte memory. It walks that slice four bytes at a time. Each cell
`(r, g, b, control)` updates an 8-bit RGB accumulator according to the control byte, and the core
sends colours to the display loop over a channel. This project models one µcore's interpreter
(`Execute` in `main.go`) as pure functions. Channel sends become sequence appends. The `xmas` flag
becomes an explicit boolean. It also models the cutting of memory into the 64 per-core regions.

Modules, one per concept:

- `Bytes` (`bytes.dfy`): Go's `byte`, its wrapping `+ - *`, and `saturationIncrease` / `saturationDecrease`.
- `Colors` (`colors.dfy`): the `Rgb` accumulator/colour, the `Cell`, the field offsets and
  opcodes, and the decoder from memory to cells.
- `Alu` (`alu.dfy`): `add`, `sub`, `mul`, `set`, `tryDiv`, `div` and ROTATE.
- `Core` (`core.dfy`): `transformPixel`, the DRAIN and FILL loops, one cell (`Step`), the whole
  walk (`RunCells`) and the `Execute` loop itself.
- `CoreLemmas` (`core_lemmas.dfy`): properties of cells and whole regions.
- `Pool` (`pool.dfy`): the sizes in `main`, the `MicroCore` record and `New`, and the region-slicing loop.

Points where the code's behaviour is easy to misread, and which the model follows exactly:

- DELAY and every control byte from 9 to 255 still emit one colour. The emit after the `switch`
  (main.go:197-198) is unconditional (`CoreLemmas.IdleCell`, `CoreLemmas.DelayThenSet`).
- DRAIN and FILL step toward the cell's operands, not toward 0 or 255. They do not reset the
  accumulator afterwards. They emit the settled colour three times: twice inside the opcode and
  once from the common emit.
- In xmas mode DRAIN and FILL do change the blue accumulator, because their loops have no xmas
  test. The colours they emit still have blue forced to 0 by `transformPixel`.
- The code does not check that a region is a whole number of cells. A trailing partial cell makes
  the byte read at main.go:115-117 fall outside the slice, which panics in Go. The model returns
  `Halt.IndexOutOfRange` for that case. With `main`'s sizes it never happens
  (`Pool.MainConfiguration`, `Pool.BootMain`).
- A fresh core's accumulator is Go's zero value, black (`Pool.New`, proved in `Pool.Boot`).

## Model

| member | source | states |
|---|---|---|
| Bytes.WrapAdd | main.go:71-74 | byte addition yields the true sum, or the sum minus 256 when it does not fit in a byte |
| Bytes.WrapSub | main.go:79-82 | byte subtraction yields the true difference, or the difference plus 256 when it is negative |
| Bytes.WrapMul | main.go:86-89 | byte multiplication yields the product modulo 256 |
| Bytes.SaturationIncrease | main.go:52-58 | the result differs from the value it is given exactly when that value is below the comparison, and then it is 255 |
| Bytes.SaturationDecrease | main.go:60-66 | the result differs from the value it is given exactly when that value is above the comparison, and then it is 0 |
| Bytes.SaturatingAdd | main.go:52-58 | `saturationIncrease(x + y, x)` is `min(x + y, 255)`: the sum clamps instead of wrapping |
| Bytes.SaturatingSub | main.go:60-66 | `saturationDecrease(x - y, x)` is `max(x - y, 0)`: the difference clamps instead of wrapping |
| Bytes.OverflowDetection | main.go:52-58 | the wrapped sum is smaller than the old value exactly when the true sum exceeds 255 |
| Bytes.UnderflowDetection | main.go:60-66 | the wrapped difference is larger than the old value exactly when the true difference is negative |
| Colors.CellAt | main.go:115-117 | the decoded cell is exactly the four bytes at `i`, laid out red, green, blue, control |
| Colors.Cells | main.go:114 | a region of n bytes holds n / 4 whole cells |
| Colors.CellsIndex | main.go:114-117 | the k-th cell is the bytes at 4k plus the red, green, blue and control offsets |
| Colors.DecodeEncode | main.go:214-219 | cells laid out at the four offsets decode back to the same cells |
| Colors.EncodeDecode | main.go:114-117 | decoding loses nothing but a trailing partial cell |
| Alu.Add | main.go:70-76 | each channel becomes `min(old + operand, 255)`; blue is untouched in xmas mode |
| Alu.Sub | main.go:78-84 | each channel becomes `max(old - operand, 0)`; blue is untouched in xmas mode |
| Alu.Mul | main.go:85-91 | each channel becomes the product modulo 256; blue is untouched in xmas mode |
| Alu.TryDiv | main.go:99-103 | a zero divisor leaves the value alone; otherwise the result is the integer quotient |
| Alu.Div | main.go:104-110 | a channel whose divisor is 0 keeps its value while the others still become their integer quotients; blue is untouched in xmas mode |
| Alu.Rotate | main.go:152-157 | ROTATE maps (R,G,B) to (B,R,G); in xmas mode it swaps R and G and keeps B |
| Alu.RotateOrder | main.go:152-157 | ROTATE three times is the identity, and it moves every non-grey colour; in xmas mode twice is the identity |
| Core.TransformPixel | main.go:118-138 | outside xmas mode a colour passes unchanged; in xmas mode blue is 0, and when operand r > g green is 0 and red carries the colour's red, otherwise red is 0 and green carries the colour's green (partner: `CoreLemmas.XmasStepPalette`) |
| Core.DrainChannel | main.go:161-169 | a channel above its target goes down by exactly one: the decrement never wraps and the clamp never fires |
| Core.FillChannel | main.go:179-187 | a channel below its target goes up by exactly one: the increment never wraps and the clamp never fires |
| Core.DrainLoop | main.go:158-172 | the DRAIN loop terminates with each channel at `min(old, operand)` after exactly `max(0, R-r, G-g, B-b)` emitted frames |
| Core.FillLoop | main.go:177-190 | the FILL loop terminates with each channel at `max(old, operand)` after exactly `max(0, r-R, g-G, b-B)` emitted frames |
| Core.DrainLoopFrames | main.go:160-171 | the k-th DRAIN frame is the filtered accumulator after k+1 steps: every channel above its target lowered by k+1, never below the target |
| Core.FillLoopFrames | main.go:178-189 | the k-th FILL frame is the filtered accumulator after k+1 steps: every channel below its target raised by k+1, never above the target |
| Core.Step | main.go:139-198 | every cell emits at least one colour; only DRAIN and FILL emit more than one; DELAY and unknown opcodes keep the accumulator |
| Core.RunCells | main.go:114-199 | a region emits at least one colour per cell, and exactly one per cell when it has no DRAIN or FILL |
| Core.ExecuteCell | main.go:115-198 | one loop iteration consumes the cell at byte i, appends its colours and leaves the rest of the walk starting at byte i + 4 |
| Core.Execute | main.go:112-203 | the loop computes the same accumulator and colours as the cell-by-cell walk, and finishes (sending `done`) exactly when the region is a whole number of cells |
| CoreLemmas.DrainCell | main.go:158-198 | a DRAIN cell ends at `min(old, operand)`, emits the step frames and then three identical settled colours, `max(0, R-r, G-g, B-b) + 3` in all |
| CoreLemmas.FillCell | main.go:177-198 | a FILL cell ends at `max(old, operand)`, emits the step frames and then three identical settled colours, `max(0, r-R, g-G, b-B) + 3` in all |
| CoreLemmas.IdleCell | main.go:139-198 | DELAY and control bytes 9..255 leave the accumulator unchanged and emit exactly its filtered colour |
| CoreLemmas.SetCell | main.go:92-98 | a SET cell leaves the operands in the accumulator, except that in xmas mode blue keeps its old value, and emits that once |
| CoreLemmas.StepLastFrame | main.go:197-198 | the last colour of every cell is the filtered accumulator after that cell |
| CoreLemmas.XmasStepKeepsBlue | main.go:70-157 | in xmas mode ADD, SUB, MUL, DIV, SET, ROTATE and the idle opcodes never change the blue accumulator |
| CoreLemmas.XmasRunKeepsBlue | main.go:114-157 | in xmas mode a region without DRAIN or FILL ends with the blue it started with |
| CoreLemmas.XmasStepPalette | main.go:118-138 | in xmas mode every colour a cell emits has blue 0 and only red (when operand r > g) or only green lit |
| CoreLemmas.XmasRunPalette | main.go:118-198 | in xmas mode every colour a region emits has blue 0 and at most one of red and green nonzero |
| CoreLemmas.RunLastFrame | main.go:197-198 | the last colour a region emits is the filtered final accumulator under the last cell's operands |
| CoreLemmas.RunAppend | main.go:114 | walking two regions back to back is walking the first, then the second from the accumulator the first left |
| CoreLemmas.RotateCycle | main.go:152-157 | three ROTATE cells restore the accumulator; in xmas mode two do |
| CoreLemmas.DelayThenSet | main.go:140-149 | a DELAY cell then a SET cell emits two colours: the unchanged accumulator, then the SET operands |
| Pool.Boot | main.go:283-289 | the slicing loop builds `count` cores, each by `New` (main.go:205-212), with indices 0.., black accumulators, and core i owns bytes `i * size` up to `i * size + size`; joined in order the regions are the first `count * size` bytes of memory |
| Pool.MainConfiguration | main.go:24-30 | 64 regions of `MemSize / 64` bytes cover the memory exactly, and a region is a whole number of cells |
| Pool.BootMain | main.go:240-289 | `main` builds 64 cores whose regions, joined in order, are the whole memory, each a whole number of cells |
| Pool.JoinedIndex | main.go:283-289 | byte j of region i is byte `i * size + j` of the joined memory |
| Pool.RegionOwner | main.go:283-289 | the regions are disjoint: byte k lies in region `k / size` and in no other |

## Left out

- The display loop in `main` (main.go:291-312) is not modelled. It polls 64 channels with a
  non-blocking `select`, drops finished cores and flushes to the display. Its purpose is
  concurrency. `done` is modelled as `Halt.Finished` after the whole trace.
- Goroutines, `runtime.GOMAXPROCS` and the back-pressure of unbuffered channels are not modelled.
  One core's colours are a sequence in emission order.
- `delay` and `MillisecondDelay` (main.go:67-69, main.go:314-316) are not modelled. Time is
  outside the model, so DELAY is only "no change to the accumulator".
- Memory randomisation (main.go:243-281) is not modelled. It draws from `math/rand`; memory is an
  arbitrary input instead.
- The `unicornhat` driver calls are not modelled: Initialize, SetBrightness, ClearLEDBuffer,
  SetPixelColor, Show and Shutdown belong to a foreign library.
- Core.Execute: a trailing partial cell ends only that core's trace with `Halt.IndexOutOfRange`. In Go
  the unrecovered panic ends the whole process, including the other cores and the display loop.
  With `main`'s sizes no region has a partial cell (`Pool.MainConfiguration`).
- Flag parsing and `logPrint` are not modelled. The `xmas` flag is a parameter of every member
  that reads it.
