/** Colours and the instruction decoder: a memory cell is four bytes `(r, g, b, control)`. */
module Colors {
  import opened Bytes

  /** An RGB triple: the accumulator of a µcore and every colour it emits. */
  datatype Rgb = Rgb(r: Byte, g: Byte, b: Byte)

  /** The zero value of a fresh µcore's accumulator. */
  const Black := Rgb(0, 0, 0)

  /** One decoded instruction cell. */
  datatype Cell = Cell(r: Byte, g: Byte, b: Byte, control: Byte)

  /** Byte offsets of the fields inside a cell. */
  const Red := 0
  const Green := 1
  const Blue := 2
  const Control := 3
  const CellSize := 4

  /** The opcodes of the control byte; every other byte value is ignored. */
  const OpDelay := 0
  const OpAdd := 1
  const OpSub := 2
  const OpMul := 3
  const OpDiv := 4
  const OpSet := 5
  const OpRotate := 6
  const OpDrain := 7
  const OpFill := 8

  /** The three operand bytes of a cell, read as a colour. */
  function Operands(cell: Cell): Rgb
  {
    Rgb(cell.r, cell.g, cell.b)
  }

  /** Reads the cell that starts at byte `i`; the caller must stay inside memory. */
  function CellAt(memory: seq<Byte>, i: nat): (cell: Cell)
    requires i + Control < |memory|
    ensures Encode([cell]) == memory[i..i + CellSize]
  {
    Cell(memory[i + Red], memory[i + Green], memory[i + Blue], memory[i + Control])
  }

  /** The whole cells of a memory region, in address order; a trailing partial cell is dropped. */
  function Cells(memory: seq<Byte>): (cells: seq<Cell>)
    ensures |cells| == |memory| / CellSize
    decreases |memory|
  {
    if |memory| < CellSize then []
    else [CellAt(memory, 0)] + Cells(memory[CellSize..])
  }

  /** The k-th decoded cell is the one read at byte offset `4 * k`, as the interpreter's loop reads it. */
  lemma {:induction false} CellsIndex(memory: seq<Byte>, k: nat)
    requires k < |memory| / CellSize
    ensures CellSize * k + Control < |memory|
    ensures Cells(memory)[k] == CellAt(memory, CellSize * k)
    decreases k
  {
    if k > 0 {
      CellsIndex(memory[CellSize..], k - 1);
    }
  }

  /** Lays cells out in memory, field by field at the offsets above. */
  function Encode(cells: seq<Cell>): (memory: seq<Byte>)
    ensures |memory| == CellSize * |cells|
    decreases |cells|
  {
    if |cells| == 0 then []
    else [cells[0].r, cells[0].g, cells[0].b, cells[0].control] + Encode(cells[1..])
  }

  /** Decoding recovers every cell that was laid out. */
  lemma {:induction false} DecodeEncode(cells: seq<Cell>)
    ensures Cells(Encode(cells)) == cells
    decreases |cells|
  {
    if |cells| > 0 {
      var m := Encode(cells);
      assert m[CellSize..] == Encode(cells[1..]);
      DecodeEncode(cells[1..]);
    }
  }

  /** Re-encoding the decoded cells gives back the memory up to its last whole cell. */
  lemma {:induction false} EncodeDecode(memory: seq<Byte>)
    ensures Encode(Cells(memory)) == memory[..CellSize * (|memory| / CellSize)]
    decreases |memory|
  {
    if |memory| >= CellSize {
      var rest := memory[CellSize..];
      var whole := CellSize * (|memory| / CellSize);
      assert CellSize * (|rest| / CellSize) == whole - CellSize;
      EncodeDecode(rest);
      assert Cells(memory) == [CellAt(memory, 0)] + Cells(rest);
      assert Encode(Cells(memory)) == memory[..CellSize] + rest[..whole - CellSize];
      assert memory[..whole] == memory[..CellSize] + rest[..whole - CellSize];
    }
  }
}
