/** Properties of the µcore interpreter that relate a cell, or a whole region, to its emitted trace. */
module CoreLemmas {
  import opened Bytes
  import opened Colors
  import opened Core

  /** A DRAIN cell brings every channel down to at most its operand, one unit per emitted frame,
      then emits the settled colour three times: twice from the opcode, once from the common emit. */
  lemma DrainCell(xmas: bool, cell: Cell, acc: Rgb)
    requires cell.control == OpDrain
    ensures var t := Step(xmas, cell, acc);
            var n := Excess(acc, Operands(cell));
            && t.acc == MinRgb(acc, Operands(cell))
            && |t.frames| == n + 3
            && (forall k :: 0 <= k < n ==> t.frames[k] == TransformPixel(xmas, cell, DrainFrame(acc, Operands(cell), k + 1)))
            && t.frames[n] == t.frames[n + 1] == t.frames[n + 2] == TransformPixel(xmas, cell, t.acc)
  {
    DrainLoopFrames(xmas, cell, acc);
  }

  /** A FILL cell brings every channel up to at least its operand, one unit per emitted frame,
      then emits the settled colour three times. */
  lemma FillCell(xmas: bool, cell: Cell, acc: Rgb)
    requires cell.control == OpFill
    ensures var t := Step(xmas, cell, acc);
            var n := Deficit(acc, Operands(cell));
            && t.acc == MaxRgb(acc, Operands(cell))
            && |t.frames| == n + 3
            && (forall k :: 0 <= k < n ==> t.frames[k] == TransformPixel(xmas, cell, FillFrame(acc, Operands(cell), k + 1)))
            && t.frames[n] == t.frames[n + 1] == t.frames[n + 2] == TransformPixel(xmas, cell, t.acc)
  {
    FillLoopFrames(xmas, cell, acc);
  }

  /** DELAY and every control byte above FILL change nothing, yet still emit one colour. */
  lemma IdleCell(xmas: bool, cell: Cell, acc: Rgb)
    requires cell.control == OpDelay || cell.control > OpFill
    ensures Step(xmas, cell, acc) == Trace(acc, [TransformPixel(xmas, cell, acc)])
  {
  }

  /** A SET cell overwrites the accumulator with its operands, except that in xmas mode blue
      keeps its old value; it emits the result once. */
  lemma SetCell(xmas: bool, cell: Cell, acc: Rgb)
    requires cell.control == OpSet
    ensures var next := if xmas then Rgb(cell.r, cell.g, acc.b) else Operands(cell);
            Step(xmas, cell, acc) == Trace(next, [TransformPixel(xmas, cell, next)])
  {
  }

  /** Whatever the opcode, the last colour a cell emits is the filtered accumulator it leaves. */
  lemma StepLastFrame(xmas: bool, cell: Cell, acc: Rgb)
    ensures var t := Step(xmas, cell, acc);
            |t.frames| >= 1 && t.frames[|t.frames| - 1] == TransformPixel(xmas, cell, t.acc)
  {
  }

  /** In xmas mode the arithmetic opcodes, SET, ROTATE and the idle ones never write blue. */
  lemma XmasStepKeepsBlue(cell: Cell, acc: Rgb)
    requires !IsDrainOrFill(cell)
    ensures Step(true, cell, acc).acc.b == acc.b
  {
  }

  /** ... and so a region without DRAIN or FILL ends with the blue it started with. */
  lemma {:induction false} XmasRunKeepsBlue(cells: seq<Cell>, acc: Rgb)
    requires forall c | c in cells :: !IsDrainOrFill(c)
    ensures RunCells(true, cells, acc).acc.b == acc.b
    decreases |cells|
  {
    if |cells| > 0 {
      XmasStepKeepsBlue(cells[0], acc);
      XmasRunKeepsBlue(cells[1..], Step(true, cells[0], acc).acc);
    }
  }

  /** An xmas colour for a cell: no blue, and only the channel the cell's operands pick. */
  predicate XmasColor(cell: Cell, c: Rgb)
  {
    c.b == 0 && (if cell.r > cell.g then c.g == 0 else c.r == 0)
  }

  /** In xmas mode every colour a cell emits is filtered to its single dominant channel. */
  lemma XmasStepPalette(cell: Cell, acc: Rgb)
    ensures forall f | f in Step(true, cell, acc).frames :: XmasColor(cell, f)
  {
    var t := Step(true, cell, acc);
    if cell.control == OpDrain {
      DrainCell(true, cell, acc);
    } else if cell.control == OpFill {
      FillCell(true, cell, acc);
    }
    forall f | f in t.frames
      ensures XmasColor(cell, f)
    {
      var k :| 0 <= k < |t.frames| && t.frames[k] == f;
    }
  }

  /** In xmas mode every colour a region emits has no blue and at most one lit channel. */
  lemma {:induction false} XmasRunPalette(cells: seq<Cell>, acc: Rgb)
    ensures forall f | f in RunCells(true, cells, acc).frames :: f.b == 0 && (f.r == 0 || f.g == 0)
    decreases |cells|
  {
    if |cells| > 0 {
      var first := Step(true, cells[0], acc);
      XmasStepPalette(cells[0], acc);
      XmasRunPalette(cells[1..], first.acc);
    }
  }

  /** The last colour a region emits, the one its display position keeps, is the filtered final
      accumulator under the last cell's operands. */
  lemma {:induction false} RunLastFrame(xmas: bool, cells: seq<Cell>, acc: Rgb)
    requires |cells| > 0
    ensures var t := RunCells(xmas, cells, acc);
            t.frames[|t.frames| - 1] == TransformPixel(xmas, cells[|cells| - 1], t.acc)
    decreases |cells|
  {
    StepLastFrame(xmas, cells[0], acc);
    if |cells| > 1 {
      RunLastFrame(xmas, cells[1..], Step(xmas, cells[0], acc).acc);
      assert cells[1..][|cells| - 2] == cells[|cells| - 1];
    }
  }

  /** Running two regions back to back is running the first, then the second from where it left off. */
  lemma {:induction false} RunAppend(xmas: bool, a: seq<Cell>, b: seq<Cell>, acc: Rgb)
    ensures var first := RunCells(xmas, a, acc);
            RunCells(xmas, a + b, acc) == Then(first, RunCells(xmas, b, first.acc))
    decreases |a|
  {
    if |a| == 0 {
      assert a + b == b;
    } else {
      var first := Step(xmas, a[0], acc);
      assert (a + b)[0] == a[0] && (a + b)[1..] == a[1..] + b;
      RunAppend(xmas, a[1..], b, first.acc);
      var middle := RunCells(xmas, a[1..], first.acc);
      calc {
        RunCells(xmas, a + b, acc);
        Then(first, RunCells(xmas, a[1..] + b, first.acc));
        Then(first, Then(middle, RunCells(xmas, b, middle.acc)));
        { assert first.frames + (middle.frames + RunCells(xmas, b, middle.acc).frames)
              == (first.frames + middle.frames) + RunCells(xmas, b, middle.acc).frames; }
        Then(Then(first, middle), RunCells(xmas, b, middle.acc));
      }
    }
  }

  /** Three ROTATE cells in a row restore the accumulator outside xmas mode; two do in xmas mode. */
  lemma RotateCycle(cells: seq<Cell>, acc: Rgb)
    requires forall c | c in cells :: c.control == OpRotate
    ensures |cells| == 3 ==> RunCells(false, cells, acc).acc == acc
    ensures |cells| == 2 ==> RunCells(true, cells, acc).acc == acc
  {
    if |cells| == 3 {
      assert cells[0] in cells && cells[1] in cells && cells[2] in cells;
      var a1 := Step(false, cells[0], acc).acc;
      var a2 := Step(false, cells[1], a1).acc;
      assert cells[1..][1..] == [cells[2]];
      assert RunCells(false, [cells[2]], a2).acc == acc;
      assert RunCells(false, cells[1..], a1).acc == acc;
    } else if |cells| == 2 {
      assert cells[0] in cells && cells[1] in cells;
      var a1 := Step(true, cells[0], acc).acc;
      assert cells[1..] == [cells[1]];
      assert RunCells(true, [cells[1]], a1).acc == acc;
    }
  }

  /** A DELAY cell followed by a SET cell emits two colours: the unchanged accumulator, then the
      SET operands. */
  lemma DelayThenSet(delay: Cell, assign: Cell, acc: Rgb)
    requires delay.control == OpDelay && assign.control == OpSet
    ensures RunCells(false, [delay, assign], acc) == Trace(Operands(assign), [acc, Operands(assign)])
  {
    assert [delay, assign][1..] == [assign];
    assert RunCells(false, [assign], acc) == Trace(Operands(assign), [Operands(assign)]);
  }
}
