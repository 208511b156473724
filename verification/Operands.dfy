/** Reading and writing the entries of stored operands in one flat memory. */
module Operands {
  import opened Results
  import opened Checked
  import opened Scalars
  import opened Storage
  import opened Triangular

  type Memory = seq<Scalar>

  /** The entries of a matrix. */
  type Grid = (int, int) -> Scalar

  function ValidateContext(backend: Backend): Status {
    if backend != Serial then Failed(Unsupported) else Ok
  }

  function ValidateHostStorage(view: View): Status {
    if view.space != Host && view.space != PinnedHost then Failed(MemoryAccess) else Ok
  }

  // ----- Entries ------------------------------------------------------------

  /** The stored entry at a slot of a view. */
  function At(memory: Memory, view: View, triangle: Triangle, row: int, column: int): Scalar
    requires Fits(view, |memory|) && IsSlot(view.form, triangle, row, column)
  {
    PlaceFits(view, |memory|, triangle, row, column);
    memory[Place(view, triangle, row, column)]
  }

  function VectorAt(memory: Memory, vector: View, index: int): Scalar
    requires vector.form.Vector? && Fits(vector, |memory|) && 0 <= index < vector.form.size
  {
    At(memory, vector, Upper, index, 0)
  }

  function MatrixAt(memory: Memory, matrix: View, row: int, column: int): Scalar
    requires matrix.form.Full? && Fits(matrix, |memory|)
    requires 0 <= row < matrix.form.rows && 0 <= column < matrix.form.columns
  {
    At(memory, matrix, Upper, row, column)
  }

  /** A square view that a triangular kernel accepts. */
  predicate IsSquare(view: View) {
    match view.form
    case Full(rows, columns, _, _) => rows == columns
    case TriangularBand(_, _, _, _) => true
    case Packed(_, _) => true
    case GeneralBand(_, _, _, _, _, _) => false
    case Vector(_, _) => false
  }

  function Order(view: View): int
    requires IsSquare(view)
  {
    if view.form.Full? then view.form.rows else view.form.order
  }

  predicate InOrder(view: View, row: int, column: int)
    requires IsSquare(view)
  {
    0 <= row < Order(view) && 0 <= column < Order(view)
  }

  /** Entry of a triangular operand: the implicit unit diagonal, zero outside
      the stored triangle or band, and the stored value elsewhere. */
  function TriangularAt(
      memory: Memory, view: View, triangle: Triangle, diagonal: Diagonal, row: int, column: int): Scalar
    requires Fits(view, |memory|) && IsSquare(view) && InOrder(view, row, column)
  {
    if row == column && diagonal == Unit then ONE
    else if view.form.TriangularBand? then
      if triangle == Upper then
        if column < row || column > row + view.form.bandwidth then ZERO
        else At(memory, view, triangle, row, column)
      else
        if row < column || row > column + view.form.bandwidth then ZERO
        else At(memory, view, triangle, row, column)
    else if (triangle == Upper && row > column) || (triangle == Lower && row < column) then ZERO
    else At(memory, view, triangle, row, column)
  }

  /** Entry of the operand after the requested transposition. */
  function TriangularOperationAt(
      memory: Memory, view: View, triangle: Triangle, transpose: Transpose, diagonal: Diagonal,
      row: int, column: int): Scalar
    requires Fits(view, |memory|) && IsSquare(view) && InOrder(view, row, column)
  {
    var value :=
      if transpose == NoTranspose then TriangularAt(memory, view, triangle, diagonal, row, column)
      else TriangularAt(memory, view, triangle, diagonal, column, row);
    if transpose == ConjugateTransposed then Conjugate(value) else value
  }

  predicate EffectiveUpper(triangle: Triangle, transpose: Transpose) {
    if transpose == NoTranspose then triangle == Upper else triangle == Lower
  }

  /** The operand as a mathematical operator, zero outside its order. */
  ghost function OperatorOf(
      memory: Memory, view: View, triangle: Triangle, transpose: Transpose, diagonal: Diagonal): Operator
    requires Fits(view, |memory|) && IsSquare(view)
  {
    (row: int, column: int) =>
      if InOrder(view, row, column)
      then TriangularOperationAt(memory, view, triangle, transpose, diagonal, row, column)
      else ZERO
  }

  ghost function Transposition(t: Operator): Operator {
    (row: int, column: int) => t(column, row)
  }

  /** Whatever the storage, the operand is triangular in its effective direction. */
  lemma OperatorIsTriangular(
      memory: Memory, view: View, triangle: Triangle, transpose: Transpose, diagonal: Diagonal)
    requires Fits(view, |memory|) && IsSquare(view)
    ensures var t := OperatorOf(memory, view, triangle, transpose, diagonal);
      && IsTriangular(t, Order(view), EffectiveUpper(triangle, transpose))
      && IsTriangular(Transposition(t), Order(view), !EffectiveUpper(triangle, transpose))
  {
  }

  /** The coordinates a triangular kernel reads from storage. */
  predicate IsStored(view: View, triangle: Triangle, row: int, column: int) {
    IsSlot(view.form, triangle, row, column) && if triangle == Upper then row <= column else column <= row
  }

  /** Without transposition the operand is what its storage holds, in every form:
      the stored triangle or band, an implicit unit diagonal, and zero elsewhere. */
  lemma OperatorReadsStorage(
      memory: Memory, view: View, triangle: Triangle, diagonal: Diagonal, row: int, column: int)
    requires Fits(view, |memory|) && IsSquare(view) && InOrder(view, row, column)
    ensures OperatorOf(memory, view, triangle, NoTranspose, diagonal)(row, column)
            == if diagonal == Unit && row == column then ONE
               else if IsStored(view, triangle, row, column) then At(memory, view, triangle, row, column)
               else ZERO
  {
  }

  /** The stored diagonal has no zero, or it is not read at all. */
  ghost predicate Nonsingular(memory: Memory, view: View, triangle: Triangle, diagonal: Diagonal)
    requires Fits(view, |memory|) && IsSquare(view)
  {
    diagonal == Unit || forall k :: 0 <= k < Order(view) ==> At(memory, view, triangle, k, k) != ZERO
  }

  lemma NonsingularOperator(
      memory: Memory, view: View, triangle: Triangle, transpose: Transpose, diagonal: Diagonal)
    requires Fits(view, |memory|) && IsSquare(view) && Nonsingular(memory, view, triangle, diagonal)
    ensures NonsingularDiagonal(OperatorOf(memory, view, triangle, transpose, diagonal), Order(view))
  {
    var t := OperatorOf(memory, view, triangle, transpose, diagonal);
    forall k | 0 <= k < Order(view)
      ensures t(k, k) != ZERO
    {
      assert diagonal == NonUnit ==> At(memory, view, triangle, k, k) != ZERO;
    }
  }

  lemma UnitDiagonalOperator(memory: Memory, view: View, triangle: Triangle, transpose: Transpose, row: int)
    requires Fits(view, |memory|) && IsSquare(view) && 0 <= row < Order(view)
    ensures OperatorOf(memory, view, triangle, transpose, Unit)(row, row) == ONE
  {
  }

  /** Storages that hold the same triangle give the same operator. */
  lemma {:induction false} SameTriangleSameOperator(
      m: Memory, v: View, m': Memory, v': View, triangle: Triangle, transpose: Transpose, diagonal: Diagonal,
      row: int, column: int)
    requires Fits(v, |m|) && IsSquare(v) && Fits(v', |m'|) && IsSquare(v') && Order(v) == Order(v')
    requires InOrder(v, row, column)
    requires forall r, c :: InOrder(v, r, c) ==>
      TriangularAt(m, v, triangle, NonUnit, r, c) == TriangularAt(m', v', triangle, NonUnit, r, c)
    ensures OperatorOf(m, v, triangle, transpose, diagonal)(row, column)
            == OperatorOf(m', v', triangle, transpose, diagonal)(row, column)
  {
    var (r, c) := if transpose == NoTranspose then (row, column) else (column, row);
    assert InOrder(v, r, c);
    assert TriangularAt(m, v, triangle, NonUnit, r, c) == TriangularAt(m', v', triangle, NonUnit, r, c);
  }

  // ----- Frames -------------------------------------------------------------

  /** Some slot of the view is stored at element `o`. */
  ghost predicate IsPlace(view: View, triangle: Triangle, o: int) {
    exists row, column :: IsSlot(view.form, triangle, row, column) && Place(view, triangle, row, column) == o
  }

  /** Nothing but slots of the view differs. */
  ghost predicate Framed(before: Memory, after: Memory, view: View, triangle: Triangle) {
    && |after| == |before|
    && forall o :: 0 <= o < |before| && !IsPlace(view, triangle, o) ==> after[o] == before[o]
  }

  lemma WriteFramed(
      before: Memory, after: Memory, view: View, triangle: Triangle, row: int, column: int, value: Scalar)
    requires Framed(before, after, view, triangle)
    requires Fits(view, |before|) && IsSlot(view.form, triangle, row, column)
    ensures 0 <= Place(view, triangle, row, column) < |after|
    ensures Framed(before, after[Place(view, triangle, row, column) := value], view, triangle)
  {
    PlaceFits(view, |before|, triangle, row, column);
  }

  /** A write changes its own entry and no other entry of the view. */
  lemma WriteEntry(
      memory: Memory, view: View, triangle: Triangle, row: int, column: int, value: Scalar, r: int, c: int)
    requires Fits(view, |memory|)
    requires IsSlot(view.form, triangle, row, column) && IsSlot(view.form, triangle, r, c)
    ensures 0 <= Place(view, triangle, row, column) < |memory|
    ensures At(memory[Place(view, triangle, row, column) := value], view, triangle, r, c)
            == if r == row && c == column then value else At(memory, view, triangle, r, c)
  {
    PlaceFits(view, |memory|, triangle, row, column);
    PlaceFits(view, |memory|, triangle, r, c);
    if Place(view, triangle, row, column) == Place(view, triangle, r, c) {
      OffsetInjective(view.form, triangle, row, column, r, c);
    }
  }

  /** An operand that passed the overlap test reads the same after framed writes. */
  lemma {:induction false} EntryUndisturbed(
      before: Memory, after: Memory, operand: View, s: Triangle, target: View, t: Triangle, row: int, column: int)
    requires Fits(operand, |before|) && WellFormed(target.form) && !Overlap(operand, target)
    requires Framed(before, after, target, t)
    requires IsSlot(operand.form, s, row, column)
    ensures At(after, operand, s, row, column) == At(before, operand, s, row, column)
  {
    var o := Place(operand, s, row, column);
    PlaceFits(operand, |before|, s, row, column);
    if IsPlace(target, t, o) {
      var r, c :| IsSlot(target.form, t, r, c) && Place(target, t, r, c) == o;
      NoSharedPlace(operand, target, s, t, row, column, r, c);
    }
  }

  lemma OperationUndisturbed(
      before: Memory, after: Memory, operand: View, triangle: Triangle, transpose: Transpose, diagonal: Diagonal,
      target: View, t: Triangle, row: int, column: int)
    requires Fits(operand, |before|) && WellFormed(target.form) && !Overlap(operand, target)
    requires IsSquare(operand) && InOrder(operand, row, column)
    requires Framed(before, after, target, t)
    ensures TriangularOperationAt(after, operand, triangle, transpose, diagonal, row, column)
            == TriangularOperationAt(before, operand, triangle, transpose, diagonal, row, column)
  {
    var (r, c) := if transpose == NoTranspose then (row, column) else (column, row);
    if IsSlot(operand.form, triangle, r, c) {
      EntryUndisturbed(before, after, operand, triangle, target, t, r, c);
    }
  }

  // ----- Lines of a matrix --------------------------------------------------

  /** Contents of a vector as a column, zero outside. */
  ghost function Contents(memory: Memory, vector: View): Column
    requires vector.form.Vector? && Fits(vector, |memory|)
  {
    k => if 0 <= k < vector.form.size then VectorAt(memory, vector, k) else ZERO
  }

  /** One column of a matrix as a strided vector. */
  ghost function ColumnOf(matrix: View, column: int): View
    requires matrix.form.Full?
  {
    var Full(rows, _, layout, leading) := matrix.form;
    if layout == ColumnMajor then matrix.(base := matrix.base + column * leading, form := Vector(rows, 1))
    else matrix.(base := matrix.base + column, form := Vector(rows, leading))
  }

  /** One row of a matrix as a strided vector. */
  ghost function RowOf(matrix: View, row: int): View
    requires matrix.form.Full?
  {
    var Full(_, columns, layout, leading) := matrix.form;
    if layout == ColumnMajor then matrix.(base := matrix.base + row, form := Vector(columns, leading))
    else matrix.(base := matrix.base + row * leading, form := Vector(columns, 1))
  }

  lemma ColumnPlaces(matrix: View, row: int, column: int)
    requires matrix.form.Full?
    ensures Place(ColumnOf(matrix, column), Upper, row, 0) == Place(matrix, Upper, row, column)
    ensures Place(RowOf(matrix, row), Upper, column, 0) == Place(matrix, Upper, row, column)
  {
  }

  lemma {:induction false} ColumnFits(matrix: View, length: nat, column: int)
    requires matrix.form.Full? && Fits(matrix, length) && 0 <= column < matrix.form.columns
    ensures Fits(ColumnOf(matrix, column), length)
  {
    if matrix.form.rows > 0 {
      ColumnPlaces(matrix, 0, column);
      ColumnPlaces(matrix, matrix.form.rows - 1, column);
      PlaceFits(matrix, length, Upper, 0, column);
      PlaceFits(matrix, length, Upper, matrix.form.rows - 1, column);
    }
  }

  lemma {:induction false} RowFits(matrix: View, length: nat, row: int)
    requires matrix.form.Full? && Fits(matrix, length) && 0 <= row < matrix.form.rows
    ensures Fits(RowOf(matrix, row), length)
  {
    if matrix.form.columns > 0 {
      ColumnPlaces(matrix, row, 0);
      ColumnPlaces(matrix, row, matrix.form.columns - 1);
      PlaceFits(matrix, length, Upper, row, 0);
      PlaceFits(matrix, length, Upper, row, matrix.form.columns - 1);
    }
  }
}
