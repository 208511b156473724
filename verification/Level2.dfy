/** Matrix-vector kernels: the triangular multiply and solve on one vector. */
module Level2 {
  import opened Results
  import opened Scalars
  import opened Sums
  import opened Storage
  import opened Triangular
  import opened Operands
  import opened Sweeps

  predicate IsTriangularForm(form: Form) {
    form.Full? || form.TriangularBand? || form.Packed?
  }

  /** The checks of the triangular vector kernels, in order. */
  function TriangularStatus(backend: Backend, access: View, vector: View): Status
    requires IsTriangularForm(access.form) && vector.form.Vector?
  {
    if access.form.Full? && access.form.rows != access.form.columns then Failed(Shape)
    else if ValidateContext(backend) != Ok then ValidateContext(backend)
    else if ValidateHostStorage(access) != Ok then ValidateHostStorage(access)
    else if ValidateHostStorage(vector) != Ok then ValidateHostStorage(vector)
    else if vector.form.size != Order(access) then Failed(Shape)
    else if Overlap(access, vector) then Failed(InvalidArgument)
    else Ok
  }

  /** Row `row` of the operator, accumulated against the current vector. */
  method AccumulateRow(
      memory: array<Scalar>, access: View, triangle: Triangle, transpose: Transpose, diagonal: Diagonal,
      vector: View, row: int, begin: int, end: int, ghost before: Memory)
    returns (result: Scalar)
    requires Fits(access, memory.Length) && IsSquare(access)
    requires vector.form.Vector? && Fits(vector, memory.Length)
    requires vector.form.size == Order(access) && !Overlap(access, vector)
    requires 0 <= row < Order(access) && 0 <= begin <= end <= Order(access)
    requires Framed(before, memory[..], vector, Upper)
    ensures result
            == Sum(Term(OperatorOf(before, access, triangle, transpose, diagonal), Contents(memory[..], vector), row),
                   begin, end)
  {
    result := ZERO;
    ghost var f := Term(OperatorOf(before, access, triangle, transpose, diagonal), Contents(memory[..], vector), row);
    for column := begin to end
      invariant result == Sum(f, begin, column)
    {
      OperationUndisturbed(before, memory[..], access, triangle, transpose, diagonal, vector, Upper, row, column);
      result := Add(result,
                    Mul(TriangularOperationAt(memory[..], access, triangle, transpose, diagonal, row, column),
                        VectorAt(memory[..], vector, column)));
    }
  }

  /** In-place product: the vector becomes the operator applied to its old contents. */
  method MultiplyVector(
      memory: array<Scalar>, access: View, triangle: Triangle, transpose: Transpose, diagonal: Diagonal, vector: View)
    requires Fits(access, memory.Length) && IsSquare(access)
    requires vector.form.Vector? && Fits(vector, memory.Length)
    requires vector.form.size == Order(access) && !Overlap(access, vector)
    modifies memory
    ensures Framed(old(memory[..]), memory[..], vector, Upper)
    ensures IsProduct(OperatorOf(old(memory[..]), access, triangle, transpose, diagonal), ONE,
                      Contents(old(memory[..]), vector), Contents(memory[..], vector), Order(access))
  {
    hide Mul, Sub, Div, TriangularOperationAt, Offset, Span, Lowest, Overlap, DividePivot, Sum, IsTriangular, IsPlace;
    hide Term;
    ghost var before := memory[..];
    ghost var t := OperatorOf(before, access, triangle, transpose, diagonal);
    ghost var x0 := Contents(before, vector);
    OperatorIsTriangular(before, access, triangle, transpose, diagonal);
    var upper := EffectiveUpper(triangle, transpose);
    var order := Order(access);
    for iteration := 0 to order
      invariant Framed(before, memory[..], vector, Upper)
      invariant MultiplySwept(t, ONE, x0, Contents(memory[..], vector), order,
                              FinishedFrom(upper, iteration, order), FinishedTo(upper, iteration, order))
    {
      var row := if upper then iteration else order - 1 - iteration;
      var begin := if upper then row else 0;
      var end := if upper then order else row + 1;
      ghost var current := memory[..];
      var result := AccumulateRow(memory, access, triangle, transpose, diagonal, vector, row, begin, end, before);
      OneTimes(result);
      MultiplyWrite(t, ONE, x0, before, current, vector, upper, iteration, result);
      memory[Place(vector, Upper, row, 0)] := result;
      assert memory[..] == current[Place(vector, Upper, row, 0) := result];
    }
  }

  /** Row `row` of the operator, subtracted term by term from `start`. */
  method SubtractRow(
      memory: array<Scalar>, access: View, triangle: Triangle, transpose: Transpose, diagonal: Diagonal,
      vector: View, row: int, begin: int, end: int, start: Scalar, ghost before: Memory)
    returns (result: Scalar)
    requires Fits(access, memory.Length) && IsSquare(access)
    requires vector.form.Vector? && Fits(vector, memory.Length)
    requires vector.form.size == Order(access) && !Overlap(access, vector)
    requires 0 <= row < Order(access) && 0 <= begin <= end <= Order(access)
    requires Framed(before, memory[..], vector, Upper)
    ensures result
            == Sub(start, Sum(Term(OperatorOf(before, access, triangle, transpose, diagonal),
                                   Contents(memory[..], vector), row), begin, end))
  {
    result := start;
    ghost var f := Term(OperatorOf(before, access, triangle, transpose, diagonal), Contents(memory[..], vector), row);
    for column := begin to end
      invariant result == Sub(start, Sum(f, begin, column))
    {
      OperationUndisturbed(before, memory[..], access, triangle, transpose, diagonal, vector, Upper, row, column);
      result := Sub(result,
                    Mul(TriangularOperationAt(memory[..], access, triangle, transpose, diagonal, row, column),
                        VectorAt(memory[..], vector, column)));
    }
  }

  /** In-place solve: the vector becomes the solution for its old contents. */
  method SolveVector(
      memory: array<Scalar>, access: View, triangle: Triangle, transpose: Transpose, diagonal: Diagonal, vector: View)
    requires Fits(access, memory.Length) && IsSquare(access)
    requires vector.form.Vector? && Fits(vector, memory.Length)
    requires vector.form.size == Order(access) && !Overlap(access, vector)
    modifies memory
    ensures Framed(old(memory[..]), memory[..], vector, Upper)
    ensures var t := OperatorOf(old(memory[..]), access, triangle, transpose, diagonal);
      NonsingularDiagonal(t, Order(access)) ==>
        Solves(t, ONE, Contents(old(memory[..]), vector), Contents(memory[..], vector), Order(access))
  {
    hide Mul, Sub, Div, TriangularOperationAt, Offset, Span, Lowest, Overlap, DividePivot, Sum, IsTriangular, IsPlace;
    hide Term;
    ghost var before := memory[..];
    ghost var t := OperatorOf(before, access, triangle, transpose, diagonal);
    ghost var x0 := Contents(before, vector);
    OperatorIsTriangular(before, access, triangle, transpose, diagonal);
    var upper := EffectiveUpper(triangle, transpose);
    var order := Order(access);
    for iteration := 0 to order
      invariant Framed(before, memory[..], vector, Upper)
      invariant SolveProgress(t, ONE, x0, memory[..], vector, upper, iteration)
    {
      var row := if upper then order - 1 - iteration else iteration;
      var begin := if upper then row + 1 else 0;
      var end := if upper then order else row;
      ghost var current := memory[..];
      var start := VectorAt(memory[..], vector, row);
      var result := SubtractRow(memory, access, triangle, transpose, diagonal, vector, row, begin, end, start, before);
      ghost var remainder := result;
      OperationUndisturbed(before, current, access, triangle, transpose, diagonal, vector, Upper, row, row);
      result := DividePivot(diagonal, result,
                            TriangularOperationAt(memory[..], access, triangle, transpose, diagonal, row, row));
      OneTimes(start);
      UnitDiagonalOperator(before, access, triangle, transpose, row);
      SolveWrite(t, ONE, x0, before, current, vector, upper, iteration, diagonal, remainder);
      memory[Place(vector, Upper, row, 0)] := result;
      assert memory[..] == current[Place(vector, Upper, row, 0) := result];
    }
  }

  /** Trmv, Tbmv and Tpmv when `solve` is false; Trsv, Tbsv and Tpsv when it is true. */
  method TriangularOperation(
      memory: array<Scalar>, backend: Backend, triangle: Triangle, transpose: Transpose, diagonal: Diagonal,
      access: View, vector: View, solve: bool)
    returns (status: Status)
    requires Fits(access, memory.Length) && IsTriangularForm(access.form)
    requires vector.form.Vector? && Fits(vector, memory.Length)
    modifies memory
    ensures status == TriangularStatus(backend, access, vector)
    ensures status != Ok ==> memory[..] == old(memory[..])
    ensures status == Ok ==>
      var t := OperatorOf(old(memory[..]), access, triangle, transpose, diagonal);
      var b, x := Contents(old(memory[..]), vector), Contents(memory[..], vector);
      && Framed(old(memory[..]), memory[..], vector, Upper)
      && (!solve ==> IsProduct(t, ONE, b, x, Order(access)))
      && (solve && Nonsingular(old(memory[..]), access, triangle, diagonal) ==> Solves(t, ONE, b, x, Order(access)))
  {
    status := TriangularStatus(backend, access, vector);
    if status != Ok {
      return;
    }
    if !solve {
      MultiplyVector(memory, access, triangle, transpose, diagonal, vector);
    } else {
      if Nonsingular(memory[..], access, triangle, diagonal) {
        NonsingularOperator(memory[..], access, triangle, transpose, diagonal);
      }
      SolveVector(memory, access, triangle, transpose, diagonal, vector);
    }
  }
}
