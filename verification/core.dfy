/** The µcore interpreter: one region of memory walked four bytes at a time, each cell updating the
    RGB accumulator and emitting colours. Channel sends of the original become sequence appends. */
module Core {
  import opened Bytes
  import opened Colors
  import Alu

  /** The accumulator after some work, and the colours emitted on the way, oldest first. */
  datatype Trace = Trace(acc: Rgb, frames: seq<Rgb>)

  /** Why a walk over memory stopped: it ran off the end cleanly (and signals `done`), or a trailing
      partial cell made a byte read fall outside the region. */
  datatype Halt = Finished | IndexOutOfRange

  /** The per-cell `transformPixel` filter. In xmas mode only the channel chosen by the cell's
      operands survives: red when `r > g`, green otherwise. */
  function TransformPixel(xmas: bool, cell: Cell, c: Rgb): (p: Rgb)
    ensures !xmas ==> p == c
    ensures xmas ==> p.b == 0 && (if cell.r > cell.g then p.g == 0 else p.r == 0)
    ensures xmas ==> p.r + p.g == if cell.r > cell.g then c.r else c.g
  {
    if !xmas then c
    else if cell.r > cell.g then Rgb(c.r, 0, 0)
    else Rgb(0, c.g, 0)
  }

  /** How many steps DRAIN needs: the largest amount by which a channel exceeds its target. */
  function Excess(acc: Rgb, target: Rgb): nat
  {
    Max(0, Max(acc.r - target.r, Max(acc.g - target.g, acc.b - target.b)))
  }

  /** How many steps FILL needs: the largest amount by which a channel falls short of its target. */
  function Deficit(acc: Rgb, target: Rgb): nat
  {
    Excess(target, acc)
  }

  function MinRgb(a: Rgb, b: Rgb): Rgb
  {
    Rgb(Min(a.r, b.r), Min(a.g, b.g), Min(a.b, b.b))
  }

  function MaxRgb(a: Rgb, b: Rgb): Rgb
  {
    Rgb(Max(a.r, b.r), Max(a.g, b.g), Max(a.b, b.b))
  }

  /** The accumulator after `n` DRAIN steps: every channel above its target has gone down by `n`,
      but never below the target. */
  function DrainFrame(acc: Rgb, target: Rgb, n: nat): Rgb
  {
    Rgb(Max(acc.r - n, Min(acc.r, target.r)),
        Max(acc.g - n, Min(acc.g, target.g)),
        Max(acc.b - n, Min(acc.b, target.b)))
  }

  /** The accumulator after `n` FILL steps: every channel below its target has gone up by `n`,
      but never above the target. */
  function FillFrame(acc: Rgb, target: Rgb, n: nat): Rgb
  {
    Rgb(Min(acc.r + n, Max(acc.r, target.r)),
        Min(acc.g + n, Max(acc.g, target.g)),
        Min(acc.b + n, Max(acc.b, target.b)))
  }

  /** One channel of a DRAIN step: when above target, a wrapped decrement checked by
      `saturationDecrease`. A channel above its target is at least 1, so the decrement never
      wraps and the clamp never fires. */
  function DrainChannel(x: Byte, target: Byte): (res: Byte)
    ensures x > target ==> res == x - 1
    ensures x <= target ==> res == x
  {
    if x > target then SaturationDecrease(WrapSub(x, 1), x) else x
  }

  /** One channel of a FILL step: when below target, a wrapped increment checked by
      `saturationIncrease`. A channel below its target is at most 254, so the increment never
      wraps and the clamp never fires. */
  function FillChannel(x: Byte, target: Byte): (res: Byte)
    ensures x < target ==> res == x + 1
    ensures x >= target ==> res == x
  {
    if x < target then SaturationIncrease(WrapAdd(x, 1), x) else x
  }

  /** One DRAIN step moves the accumulator one frame along `DrainFrame`, keeps the final value,
      and shortens the remaining run by exactly one step. */
  lemma DrainStep(acc: Rgb, target: Rgb, next: Rgb)
    requires acc.r > target.r || acc.g > target.g || acc.b > target.b
    requires next == Rgb(DrainChannel(acc.r, target.r), DrainChannel(acc.g, target.g), DrainChannel(acc.b, target.b))
    ensures next == DrainFrame(acc, target, 1)
    ensures MinRgb(next, target) == MinRgb(acc, target)
    ensures Excess(next, target) == Excess(acc, target) - 1
    ensures forall n: nat :: DrainFrame(next, target, n) == DrainFrame(acc, target, n + 1)
  {
  }

  /** One FILL step moves the accumulator one frame along `FillFrame`, keeps the final value,
      and shortens the remaining run by exactly one step. */
  lemma FillStep(acc: Rgb, target: Rgb, next: Rgb)
    requires acc.r < target.r || acc.g < target.g || acc.b < target.b
    requires next == Rgb(FillChannel(acc.r, target.r), FillChannel(acc.g, target.g), FillChannel(acc.b, target.b))
    ensures next == FillFrame(acc, target, 1)
    ensures MaxRgb(next, target) == MaxRgb(acc, target)
    ensures Deficit(next, target) == Deficit(acc, target) - 1
    ensures forall n: nat :: FillFrame(next, target, n) == FillFrame(acc, target, n + 1)
  {
  }

  /** The DRAIN loop: step every channel above the cell's operand down by one and emit the
      filtered accumulator, until no channel is above its operand. */
  function DrainLoop(xmas: bool, cell: Cell, acc: Rgb): (t: Trace)
    ensures t.acc == MinRgb(acc, Operands(cell))
    ensures |t.frames| == Excess(acc, Operands(cell))
    decreases acc.r + acc.g + acc.b
  {
    if acc.g > cell.g || acc.b > cell.b || acc.r > cell.r then
      var next := Rgb(DrainChannel(acc.r, cell.r), DrainChannel(acc.g, cell.g), DrainChannel(acc.b, cell.b));
      DrainStep(acc, Operands(cell), next);
      var rest := DrainLoop(xmas, cell, next);
      Trace(rest.acc, [TransformPixel(xmas, cell, next)] + rest.frames)
    else
      Trace(acc, [])
  }

  /** The FILL loop: step every channel below the cell's operand up by one and emit the filtered
      accumulator, until no channel is below its operand. */
  function FillLoop(xmas: bool, cell: Cell, acc: Rgb): (t: Trace)
    ensures t.acc == MaxRgb(acc, Operands(cell))
    ensures |t.frames| == Deficit(acc, Operands(cell))
    decreases 765 - (acc.r + acc.g + acc.b)
  {
    if acc.g < cell.g || acc.b < cell.b || acc.r < cell.r then
      var next := Rgb(FillChannel(acc.r, cell.r), FillChannel(acc.g, cell.g), FillChannel(acc.b, cell.b));
      FillStep(acc, Operands(cell), next);
      var rest := FillLoop(xmas, cell, next);
      Trace(rest.acc, [TransformPixel(xmas, cell, next)] + rest.frames)
    else
      Trace(acc, [])
  }

  /** The k-th frame DRAIN emits is the filtered accumulator after k + 1 steps. */
  lemma {:induction false} DrainLoopFrames(xmas: bool, cell: Cell, acc: Rgb)
    ensures forall k :: 0 <= k < |DrainLoop(xmas, cell, acc).frames| ==>
              DrainLoop(xmas, cell, acc).frames[k] == TransformPixel(xmas, cell, DrainFrame(acc, Operands(cell), k + 1))
    decreases acc.r + acc.g + acc.b
  {
    if acc.g > cell.g || acc.b > cell.b || acc.r > cell.r {
      var next := Rgb(DrainChannel(acc.r, cell.r), DrainChannel(acc.g, cell.g), DrainChannel(acc.b, cell.b));
      DrainStep(acc, Operands(cell), next);
      DrainLoopFrames(xmas, cell, next);
      var t := DrainLoop(xmas, cell, acc);
      var rest := DrainLoop(xmas, cell, next);
      assert t.frames == [TransformPixel(xmas, cell, next)] + rest.frames;
      forall k | 1 <= k < |t.frames|
        ensures t.frames[k] == TransformPixel(xmas, cell, DrainFrame(acc, Operands(cell), k + 1))
      {
        assert t.frames[k] == rest.frames[k - 1];
        var j := k - 1;
        assert 0 <= j < |rest.frames|;
        assert rest.frames[j] == TransformPixel(xmas, cell, DrainFrame(next, Operands(cell), j + 1));
        assert DrainFrame(next, Operands(cell), k) == DrainFrame(acc, Operands(cell), k + 1);
      }
    }
  }

  /** The k-th frame FILL emits is the filtered accumulator after k + 1 steps. */
  lemma {:induction false} FillLoopFrames(xmas: bool, cell: Cell, acc: Rgb)
    ensures forall k :: 0 <= k < |FillLoop(xmas, cell, acc).frames| ==>
              FillLoop(xmas, cell, acc).frames[k] == TransformPixel(xmas, cell, FillFrame(acc, Operands(cell), k + 1))
    decreases 765 - (acc.r + acc.g + acc.b)
  {
    if acc.g < cell.g || acc.b < cell.b || acc.r < cell.r {
      var next := Rgb(FillChannel(acc.r, cell.r), FillChannel(acc.g, cell.g), FillChannel(acc.b, cell.b));
      FillStep(acc, Operands(cell), next);
      FillLoopFrames(xmas, cell, next);
      var t := FillLoop(xmas, cell, acc);
      var rest := FillLoop(xmas, cell, next);
      assert t.frames == [TransformPixel(xmas, cell, next)] + rest.frames;
      forall k | 1 <= k < |t.frames|
        ensures t.frames[k] == TransformPixel(xmas, cell, FillFrame(acc, Operands(cell), k + 1))
      {
        assert t.frames[k] == rest.frames[k - 1];
        var j := k - 1;
        assert 0 <= j < |rest.frames|;
        assert rest.frames[j] == TransformPixel(xmas, cell, FillFrame(next, Operands(cell), j + 1));
        assert FillFrame(next, Operands(cell), k) == FillFrame(acc, Operands(cell), k + 1);
      }
    }
  }

  predicate IsDrainOrFill(cell: Cell)
  {
    cell.control == OpDrain || cell.control == OpFill
  }

  /** One iteration of the interpreter loop: dispatch on the control byte, then emit the filtered
      accumulator once more. DRAIN and FILL emit their loop frames and two settled colours first. */
  function Step(xmas: bool, cell: Cell, acc: Rgb): (t: Trace)
    ensures |t.frames| >= 1
    ensures !IsDrainOrFill(cell) ==> |t.frames| == 1
    ensures cell.control == OpDelay || cell.control > OpFill ==> t.acc == acc
  {
    var op := Operands(cell);
    if cell.control == OpDrain || cell.control == OpFill then
      var loop := if cell.control == OpDrain then DrainLoop(xmas, cell, acc) else FillLoop(xmas, cell, acc);
      var settled := TransformPixel(xmas, cell, loop.acc);
      Trace(loop.acc, loop.frames + [settled, settled] + [settled])
    else
      var next :=
        if cell.control == OpAdd then Alu.Add(xmas, acc, op)
        else if cell.control == OpSub then Alu.Sub(xmas, acc, op)
        else if cell.control == OpMul then Alu.Mul(xmas, acc, op)
        else if cell.control == OpSet then Alu.Set(xmas, acc, op)
        else if cell.control == OpDiv then Alu.Div(xmas, acc, op)
        else if cell.control == OpRotate then Alu.Rotate(xmas, acc)
        else acc;
      Trace(next, [TransformPixel(xmas, cell, next)])
  }

  /** Running `first`, then continuing with `rest` from the accumulator `first` left behind. */
  function Then(first: Trace, rest: Trace): Trace
  {
    Trace(rest.acc, first.frames + rest.frames)
  }

  /** The whole walk over a sequence of cells, in order, threading the accumulator through. */
  function RunCells(xmas: bool, cells: seq<Cell>, acc: Rgb): (t: Trace)
    ensures |t.frames| >= |cells|
    ensures (forall c | c in cells :: !IsDrainOrFill(c)) ==> |t.frames| == |cells|
    decreases |cells|
  {
    if |cells| == 0 then Trace(acc, [])
    else
      var first := Step(xmas, cells[0], acc);
      Then(first, RunCells(xmas, cells[1..], first.acc))
  }

  /** The walk from byte `i` is the step on the cell at `i` followed by the walk from `i + 4`. */
  lemma RunFrom(xmas: bool, memory: seq<Byte>, i: nat, acc: Rgb)
    requires i + Control < |memory|
    ensures var first := Step(xmas, CellAt(memory, i), acc);
            RunCells(xmas, Cells(memory[i..]), acc)
            == Then(first, RunCells(xmas, Cells(memory[i + CellSize..]), first.acc))
  {
    assert memory[i..][CellSize..] == memory[i + CellSize..];
  }

  /** A length of exactly `n` cells is a multiple of four; a length strictly between `n` and
      `n + 1` cells is not. */
  lemma CellBoundary(len: nat, n: nat)
    requires CellSize * n <= len < CellSize * n + CellSize
    ensures len % CellSize == 0 <==> len == CellSize * n
  {
  }

  /** One iteration of `Execute`'s loop: read the cell at byte `i`, run it, and append what it
      emits. What is left of the walk afterwards starts at byte `i + 4`. */
  method ExecuteCell(xmas: bool, memory: seq<Byte>, i: nat, acc: Rgb, frames: seq<Rgb>)
    returns (acc': Rgb, frames': seq<Rgb>)
    requires i + Control < |memory|
    ensures Then(Trace(acc, frames), RunCells(xmas, Cells(memory[i..]), acc))
            == Then(Trace(acc', frames'), RunCells(xmas, Cells(memory[i + CellSize..]), acc'))
    ensures |frames'| > |frames|
  {
    var t := Step(xmas, CellAt(memory, i), acc);
    RunFrom(xmas, memory, i, acc);
    acc' := t.acc;
    frames' := frames + t.frames;
  }

  /** `Execute`: walks the region four bytes at a time. A length that is not a multiple of four
      makes the read of the last, partial cell fall outside the region. */
  method Execute(xmas: bool, memory: seq<Byte>, start: Rgb) returns (acc: Rgb, frames: seq<Rgb>, halt: Halt)
    ensures halt == Finished <==> |memory| % CellSize == 0
    ensures Trace(acc, frames) == RunCells(xmas, Cells(memory), start)
    ensures |frames| >= |memory| / CellSize
  {
    acc := start;
    frames := [];
    var i := 0;
    ghost var n := 0;
    while i < |memory|
      invariant 0 <= i <= |memory| && i == CellSize * n && |frames| >= n
      invariant RunCells(xmas, Cells(memory), start) == Then(Trace(acc, frames), RunCells(xmas, Cells(memory[i..]), acc))
      decreases |memory| - i
    {
      if i + Control >= |memory| {
        assert Cells(memory[i..]) == [];
        assert |memory| % CellSize != 0 by { CellBoundary(|memory|, n); }
        halt := IndexOutOfRange;
        return;
      }
      acc, frames := ExecuteCell(xmas, memory, i, acc, frames);
      i := i + CellSize;
      n := n + 1;
    }
    assert |memory| % CellSize == 0 by { CellBoundary(|memory|, n); }
    halt := Finished;
  }
}
