/** A matrix as a family of strided lines: columns for a left operand, rows for a right one. */
module Lines {
  import opened Results
  import opened Checked
  import opened Scalars
  import opened Sums
  import opened Storage
  import opened Triangular
  import opened Operands

  predicate InMatrix(matrix: View, row: int, column: int)
    requires matrix.form.Full?
  {
    0 <= row < matrix.form.rows && 0 <= column < matrix.form.columns
  }

  /** All entries of a matrix, zero outside. */
  ghost function GridOf(memory: Memory, matrix: View): Grid
    requires matrix.form.Full? && Fits(matrix, |memory|)
  {
    (row: int, column: int) => if InMatrix(matrix, row, column) then MatrixAt(memory, matrix, row, column) else ZERO
  }

  ghost function SideTerm(side: Side, t: Operator, b: Grid, row: int, column: int): int -> Scalar {
    k => if side == Left then Mul(t(row, k), b(k, column)) else Mul(b(row, k), t(k, column))
  }

  /** Entry of the operator times the matrix, or of the matrix times the operator. */
  ghost function SideProduct(side: Side, t: Operator, b: Grid, row: int, column: int, order: int): Scalar {
    Sum(SideTerm(side, t, b, row, column), 0, order)
  }

  /** Extent of the matrix on the operator's side, and number of lines across it. */
  function SideOrder(side: Side, matrix: View): int
    requires matrix.form.Full?
  {
    if side == Left then matrix.form.rows else matrix.form.columns
  }

  function LineCount(side: Side, matrix: View): int
    requires matrix.form.Full?
  {
    if side == Left then matrix.form.columns else matrix.form.rows
  }

  ghost function LineAt(side: Side, matrix: View, line: int): View
    requires matrix.form.Full?
  {
    if side == Left then ColumnOf(matrix, line) else RowOf(matrix, line)
  }

  ghost function SideOperator(side: Side, t: Operator): Operator {
    if side == Left then t else Transposition(t)
  }

  function SideRow(side: Side, line: int, index: int): int {
    if side == Left then index else line
  }

  function SideColumn(side: Side, line: int, index: int): int {
    if side == Left then line else index
  }

  lemma LineFits(side: Side, matrix: View, length: nat, line: int)
    requires matrix.form.Full? && Fits(matrix, length) && 0 <= line < LineCount(side, matrix)
    ensures Fits(LineAt(side, matrix, line), length)
    ensures LineAt(side, matrix, line).form.Vector? && LineAt(side, matrix, line).form.size == SideOrder(side, matrix)
  {
    if side == Left {
      ColumnFits(matrix, length, line);
    } else {
      RowFits(matrix, length, line);
    }
  }

  lemma LinePlace(side: Side, matrix: View, line: int, index: int)
    requires matrix.form.Full?
    ensures Place(LineAt(side, matrix, line), Upper, index, 0)
            == Place(matrix, Upper, SideRow(side, line, index), SideColumn(side, line, index))
  {
    if side == Left {
      ColumnPlaces(matrix, index, line);
    } else {
      ColumnPlaces(matrix, line, index);
    }
  }

  /** The line's contents are the matrix entries on it. */
  lemma LineContents(side: Side, memory: Memory, matrix: View, line: int, index: int)
    requires matrix.form.Full? && Fits(matrix, |memory|)
    requires 0 <= line < LineCount(side, matrix) && 0 <= index < SideOrder(side, matrix)
    ensures Fits(LineAt(side, matrix, line), |memory|)
    ensures Contents(memory, LineAt(side, matrix, line))(index)
            == MatrixAt(memory, matrix, SideRow(side, line, index), SideColumn(side, line, index))
  {
    LineFits(side, matrix, |memory|, line);
    LinePlace(side, matrix, line, index);
  }

  lemma FrameWidens(side: Side, before: Memory, after: Memory, matrix: View, line: int)
    requires matrix.form.Full? && 0 <= line < LineCount(side, matrix)
    requires Framed(before, after, LineAt(side, matrix, line), Upper)
    ensures Framed(before, after, matrix, Upper)
  {
    var v := LineAt(side, matrix, line);
    forall o | 0 <= o < |before| && !IsPlace(matrix, Upper, o)
      ensures after[o] == before[o]
    {
      if IsPlace(v, Upper, o) {
        var index, zero :| IsSlot(v.form, Upper, index, zero) && Place(v, Upper, index, zero) == o;
        LinePlace(side, matrix, line, index);
        assert IsSlot(matrix.form, Upper, SideRow(side, line, index), SideColumn(side, line, index));
        assert false;
      }
    }
  }

  lemma FrameComposes(a: Memory, b: Memory, c: Memory, view: View, triangle: Triangle)
    requires Framed(a, b, view, triangle) && Framed(b, c, view, triangle)
    ensures Framed(a, c, view, triangle)
  {
  }

  /** Rewriting one line leaves every other line alone. */
  lemma {:induction false} OtherLineUndisturbed(
      side: Side, before: Memory, after: Memory, matrix: View, line: int, other: int)
    requires matrix.form.Full? && Fits(matrix, |before|)
    requires 0 <= line < LineCount(side, matrix) && 0 <= other < LineCount(side, matrix) && line != other
    requires Framed(before, after, LineAt(side, matrix, line), Upper)
    ensures Fits(LineAt(side, matrix, other), |before|)
    ensures Agree(Contents(after, LineAt(side, matrix, other)), Contents(before, LineAt(side, matrix, other)),
                  SideOrder(side, matrix))
  {
    var v := LineAt(side, matrix, line);
    LineFits(side, matrix, |before|, other);
    forall k | 0 <= k < SideOrder(side, matrix)
      ensures Contents(after, LineAt(side, matrix, other))(k) == Contents(before, LineAt(side, matrix, other))(k)
    {
      LineContents(side, before, matrix, other, k);
      LineContents(side, after, matrix, other, k);
      var r, c := SideRow(side, other, k), SideColumn(side, other, k);
      var o := Place(matrix, Upper, r, c);
      PlaceFits(matrix, |before|, Upper, r, c);
      if IsPlace(v, Upper, o) {
        var index, zero :| IsSlot(v.form, Upper, index, zero) && Place(v, Upper, index, zero) == o;
        LinePlace(side, matrix, line, index);
        OffsetInjective(matrix.form, Upper, r, c, SideRow(side, line, index), SideColumn(side, line, index));
      }
    }
  }
}
