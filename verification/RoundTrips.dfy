/** The triangular kernels run one after the other on the same memory. */
module RoundTrips {
  import opened Results
  import opened Scalars
  import opened Sums
  import opened Storage
  import opened Triangular
  import opened Operands
  import opened Lines
  import opened Level2
  import opened Level3

  // ----- Memories that agree ------------------------------------------------

  /** Framed writes that leave every entry of the view as it was leave the memory as it was. */
  lemma {:induction false} FramedUnchanged(before: Memory, after: Memory, view: View, triangle: Triangle)
    requires Framed(before, after, view, triangle) && Fits(view, |before|)
    requires forall row, column :: IsSlot(view.form, triangle, row, column) ==>
      At(after, view, triangle, row, column) == At(before, view, triangle, row, column)
    ensures after == before
  {
    hide Fits, Span, Lowest, Offset;
    forall o | 0 <= o < |before|
      ensures after[o] == before[o]
    {
      if IsPlace(view, triangle, o) {
        var row, column :| IsSlot(view.form, triangle, row, column) && Place(view, triangle, row, column) == o;
        assert At(after, view, triangle, row, column) == At(before, view, triangle, row, column);
      }
    }
  }

  lemma FramedTwice(a: Memory, b: Memory, c: Memory, view: View, triangle: Triangle)
    requires Framed(a, b, view, triangle) && Framed(b, c, view, triangle)
    ensures Framed(a, c, view, triangle)
  {
  }

  /** Operators that agree within an order. */
  ghost predicate SameOperator(s: Operator, t: Operator, n: int) {
    forall i, k :: 0 <= i < n && 0 <= k < n ==> s(i, k) == t(i, k)
  }

  /** The operand defines the same operator after framed writes to the target. */
  lemma OperatorKept(
      before: Memory, after: Memory, operand: View, triangle: Triangle, transpose: Transpose, diagonal: Diagonal,
      target: View)
    requires Fits(operand, |before|) && WellFormed(target.form) && !Overlap(operand, target)
    requires IsSquare(operand) && Framed(before, after, target, Upper)
    ensures SameOperator(OperatorOf(after, operand, triangle, transpose, diagonal),
                         OperatorOf(before, operand, triangle, transpose, diagonal), Order(operand))
    ensures Nonsingular(after, operand, triangle, diagonal) <==> Nonsingular(before, operand, triangle, diagonal)
  {
    assert |after| == |before| && WellFormed(operand.form);
    hide TriangularOperationAt, Overlap, Fits, Framed, At;
    forall i, k | 0 <= i < Order(operand) && 0 <= k < Order(operand)
      ensures TriangularOperationAt(after, operand, triangle, transpose, diagonal, i, k)
              == TriangularOperationAt(before, operand, triangle, transpose, diagonal, i, k)
    {
      OperationUndisturbed(before, after, operand, triangle, transpose, diagonal, target, Upper, i, k);
    }
    forall k | 0 <= k < Order(operand)
      ensures At(after, operand, triangle, k, k) == At(before, operand, triangle, k, k)
    {
      EntryUndisturbed(before, after, operand, triangle, target, Upper, k, k);
    }
  }

  // ----- One vector ---------------------------------------------------------

  lemma ContentsUnchanged(before: Memory, after: Memory, vector: View)
    requires vector.form.Vector? && Fits(vector, |before|) && Framed(before, after, vector, Upper)
    requires Agree(Contents(after, vector), Contents(before, vector), vector.form.size)
    ensures after == before
  {
    assert |after| == |before|;
    hide Fits, Framed, At;
    forall row, column | IsSlot(vector.form, Upper, row, column)
      ensures At(after, vector, Upper, row, column) == At(before, vector, Upper, row, column)
    {
      assert column == 0 && Contents(after, vector)(row) == Contents(before, vector)(row);
    }
    FramedUnchanged(before, after, vector, Upper);
  }

  lemma SolvesCongruent(s: Operator, t: Operator, alpha: Scalar, b: Column, x: Column, n: int)
    requires SameOperator(s, t, n) && Solves(s, alpha, b, x, n)
    ensures Solves(t, alpha, b, x, n)
  {
    forall i | 0 <= i < n
      ensures Applied(t, x, i, n) == Mul(alpha, b(i))
    {
      assert forall k :: 0 <= k < n ==> s(i, k) == t(i, k);
      AppliedCongruent(s, t, x, x, i, n);
    }
  }

  lemma ProductCongruent(s: Operator, t: Operator, alpha: Scalar, b: Column, y: Column, n: int)
    requires SameOperator(s, t, n) && IsProduct(s, alpha, b, y, n)
    ensures IsProduct(t, alpha, b, y, n)
  {
    forall i | 0 <= i < n
      ensures y(i) == Mul(alpha, Applied(t, b, i, n))
    {
      assert forall k :: 0 <= k < n ==> s(i, k) == t(i, k);
      AppliedCongruent(s, t, b, b, i, n);
    }
  }

  /** What the checks of the vector kernels leave to rely on. */
  lemma AcceptedVector(backend: Backend, access: View, vector: View)
    requires IsTriangularForm(access.form) && vector.form.Vector?
    requires TriangularStatus(backend, access, vector) == Ok
    ensures IsSquare(access) && vector.form.size == Order(access) && !Overlap(access, vector)
  {
  }

  /** Multiplying and then solving restores the contents. */
  lemma VectorMultiplyThenSolve(
      m0: Memory, m1: Memory, m2: Memory, triangle: Triangle, transpose: Transpose, diagonal: Diagonal, access: View,
      vector: View)
    requires |m1| == |m0| && |m2| == |m0| && Fits(access, |m0|) && IsSquare(access)
    requires vector.form.Vector? && Fits(vector, |m0|) && vector.form.size == Order(access) && !Overlap(access, vector)
    requires Nonsingular(m0, access, triangle, diagonal)
    requires Framed(m0, m1, vector, Upper) && Framed(m1, m2, vector, Upper)
    requires IsProduct(OperatorOf(m0, access, triangle, transpose, diagonal), ONE, Contents(m0, vector),
                       Contents(m1, vector), Order(access))
    requires Nonsingular(m1, access, triangle, diagonal) ==>
      Solves(OperatorOf(m1, access, triangle, transpose, diagonal), ONE, Contents(m1, vector), Contents(m2, vector),
             Order(access))
    ensures m2 == m0
  {
    hide Framed, Overlap, Fits, Nonsingular, NonsingularDiagonal, IsTriangular, IsProduct, Solves, OperatorOf, Contents;
    hide IsSquare, Mul, SameOperator, Agree, WellFormed;
    var n, t := Order(access), OperatorOf(m0, access, triangle, transpose, diagonal);
    VectorWellFormed(vector, |m0|);
    OperatorKept(m0, m1, access, triangle, transpose, diagonal, vector);
    SolvesCongruent(OperatorOf(m1, access, triangle, transpose, diagonal), t, ONE, Contents(m1, vector),
                    Contents(m2, vector), n);
    NonsingularOperator(m0, access, triangle, transpose, diagonal);
    OperatorIsTriangular(m0, access, triangle, transpose, diagonal);
    OneIsReciprocal();
    MultiplyThenSolveRestores(t, ONE, ONE, Contents(m0, vector), Contents(m1, vector), Contents(m2, vector), n,
                              EffectiveUpper(triangle, transpose));
    FramedTwice(m0, m1, m2, vector, Upper);
    ContentsUnchanged(m0, m2, vector);
  }

  lemma VectorMultiplyAfterSolve(
      m0: Memory, m1: Memory, m2: Memory, triangle: Triangle, transpose: Transpose, diagonal: Diagonal, access: View,
      vector: View)
    requires |m1| == |m0| && |m2| == |m0| && Fits(access, |m0|) && IsSquare(access)
    requires vector.form.Vector? && Fits(vector, |m0|) && vector.form.size == Order(access) && !Overlap(access, vector)
    requires Framed(m0, m1, vector, Upper) && Framed(m1, m2, vector, Upper)
    requires Solves(OperatorOf(m0, access, triangle, transpose, diagonal), ONE, Contents(m0, vector),
                    Contents(m1, vector), Order(access))
    requires IsProduct(OperatorOf(m1, access, triangle, transpose, diagonal), ONE, Contents(m1, vector),
                       Contents(m2, vector), Order(access))
    ensures m2 == m0
  {
    hide Framed, Overlap, Fits, IsProduct, Solves, TriangularOperationAt, Contents, IsSquare;
    var n, t := Order(access), OperatorOf(m0, access, triangle, transpose, diagonal);
    VectorWellFormed(vector, |m0|);
    OperatorKept(m0, m1, access, triangle, transpose, diagonal, vector);
    ProductCongruent(OperatorOf(m1, access, triangle, transpose, diagonal), t, ONE, Contents(m1, vector),
                     Contents(m2, vector), n);
    OneIsReciprocal();
    SolveThenMultiplyRestores(t, ONE, ONE, Contents(m0, vector), Contents(m1, vector), Contents(m2, vector), n);
    FramedTwice(m0, m1, m2, vector, Upper);
    ContentsUnchanged(m0, m2, vector);
  }

  lemma VectorWellFormed(vector: View, length: nat)
    requires Fits(vector, length) && vector.form.Vector?
    ensures WellFormed(vector.form) && 0 <= vector.form.size
  {
  }

  lemma OneIsReciprocal()
    ensures Mul(ONE, ONE) == ONE
  {
  }

  /** Trmv and then Trsv, or their band and packed forms, give back the whole memory. */
  method MultiplyThenSolveVector(
      memory: array<Scalar>, backend: Backend, triangle: Triangle, transpose: Transpose, diagonal: Diagonal,
      access: View, vector: View)
    returns (status: Status)
    requires Fits(access, memory.Length) && IsTriangularForm(access.form)
    requires vector.form.Vector? && Fits(vector, memory.Length)
    requires IsSquare(access) ==> Nonsingular(memory[..], access, triangle, diagonal)
    modifies memory
    ensures status == TriangularStatus(backend, access, vector)
    ensures memory[..] == old(memory[..])
  {
    hide TriangularStatus, Fits, Nonsingular, Overlap, IsProduct, Solves, Framed, Contents, OperatorOf;
    ghost var m0 := memory[..];
    status := TriangularOperation(memory, backend, triangle, transpose, diagonal, access, vector, false);
    if status != Ok {
      return;
    }
    ghost var m1 := memory[..];
    AcceptedVector(backend, access, vector);
    status := TriangularOperation(memory, backend, triangle, transpose, diagonal, access, vector, true);
    VectorMultiplyThenSolve(m0, m1, memory[..], triangle, transpose, diagonal, access, vector);
  }

  /** Trsv and then Trmv, or their band and packed forms, give back the whole memory. */
  method SolveThenMultiplyVector(
      memory: array<Scalar>, backend: Backend, triangle: Triangle, transpose: Transpose, diagonal: Diagonal,
      access: View, vector: View)
    returns (status: Status)
    requires Fits(access, memory.Length) && IsTriangularForm(access.form)
    requires vector.form.Vector? && Fits(vector, memory.Length)
    requires IsSquare(access) ==> Nonsingular(memory[..], access, triangle, diagonal)
    modifies memory
    ensures status == TriangularStatus(backend, access, vector)
    ensures memory[..] == old(memory[..])
  {
    hide TriangularStatus, Fits, Nonsingular, Overlap, IsProduct, Solves, Framed, Contents, OperatorOf;
    ghost var m0 := memory[..];
    status := TriangularOperation(memory, backend, triangle, transpose, diagonal, access, vector, true);
    if status != Ok {
      return;
    }
    ghost var m1 := memory[..];
    AcceptedVector(backend, access, vector);
    status := TriangularOperation(memory, backend, triangle, transpose, diagonal, access, vector, false);
    VectorMultiplyAfterSolve(m0, m1, memory[..], triangle, transpose, diagonal, access, vector);
  }

  // ----- One matrix ---------------------------------------------------------

  lemma SideProductCongruent(side: Side, s: Operator, t: Operator, g: Grid, row: int, column: int, matrix: View)
    requires matrix.form.Full? && InMatrix(matrix, row, column) && SameOperator(s, t, SideOrder(side, matrix))
    ensures SideProduct(side, s, g, row, column, SideOrder(side, matrix))
            == SideProduct(side, t, g, row, column, SideOrder(side, matrix))
  {
    var n := SideOrder(side, matrix);
    var f, h := SideTerm(side, s, g, row, column), SideTerm(side, t, g, row, column);
    forall k | 0 <= k < n
      ensures f(k) == h(k)
    {
      if side == Left {
        assert s(row, k) == t(row, k);
      } else {
        assert s(k, column) == t(k, column);
      }
    }
    SumCongruent(f, h, 0, n);
  }

  lemma GridSolvesCongruent(side: Side, s: Operator, t: Operator, alpha: Scalar, b: Grid, x: Grid, matrix: View)
    requires matrix.form.Full? && SameOperator(s, t, SideOrder(side, matrix))
    requires GridSolves(side, s, alpha, b, x, matrix)
    ensures GridSolves(side, t, alpha, b, x, matrix)
  {
    hide SideProduct, SameOperator;
    forall row, column | InMatrix(matrix, row, column)
      ensures SideProduct(side, t, x, row, column, SideOrder(side, matrix)) == Mul(alpha, b(row, column))
    {
      SideProductCongruent(side, s, t, x, row, column, matrix);
    }
  }

  lemma GridProductCongruent(side: Side, s: Operator, t: Operator, alpha: Scalar, b: Grid, y: Grid, matrix: View)
    requires matrix.form.Full? && SameOperator(s, t, SideOrder(side, matrix))
    requires GridIsProduct(side, s, alpha, b, y, matrix)
    ensures GridIsProduct(side, t, alpha, b, y, matrix)
  {
    hide SideProduct, SameOperator;
    forall row, column | InMatrix(matrix, row, column)
      ensures y(row, column) == Mul(alpha, SideProduct(side, t, b, row, column, SideOrder(side, matrix)))
    {
      SideProductCongruent(side, s, t, b, row, column, matrix);
    }
  }

  lemma GridUnchanged(before: Memory, after: Memory, matrix: View)
    requires matrix.form.Full? && Fits(matrix, |before|) && Framed(before, after, matrix, Upper)
    requires SameEntries(GridOf(after, matrix), GridOf(before, matrix), matrix)
    ensures after == before
  {
    assert |after| == |before|;
    hide Fits, Framed, At;
    forall row, column | IsSlot(matrix.form, Upper, row, column)
      ensures At(after, matrix, Upper, row, column) == At(before, matrix, Upper, row, column)
    {
      assert InMatrix(matrix, row, column);
      assert GridOf(after, matrix)(row, column) == GridOf(before, matrix)(row, column);
    }
    FramedUnchanged(before, after, matrix, Upper);
  }

  lemma AcceptedMatrix(length: nat, backend: Backend, side: Side, triangular: View, matrix: View)
    requires triangular.form.Full? && matrix.form.Full? && Fits(triangular, length) && Fits(matrix, length)
    requires TriangularMatrixStatus(backend, side, triangular, matrix) == Ok
    ensures Compatible(length, side, triangular, matrix) && WellFormed(matrix.form)
  {
  }

  lemma {:induction false} GridMultiplyThenSolve(
      m0: Memory, m1: Memory, m2: Memory, side: Side, triangle: Triangle, transpose: Transpose, diagonal: Diagonal,
      alpha: Scalar, beta: Scalar, triangular: View, matrix: View)
    requires |m1| == |m0| && |m2| == |m0| && Compatible(|m0|, side, triangular, matrix) && Mul(beta, alpha) == ONE
    requires Nonsingular(m0, triangular, triangle, diagonal)
    requires Framed(m0, m1, matrix, Upper) && Framed(m1, m2, matrix, Upper)
    requires GridIsProduct(side, OperatorOf(m0, triangular, triangle, transpose, diagonal), alpha, GridOf(m0, matrix),
                           GridOf(m1, matrix), matrix)
    requires Nonsingular(m1, triangular, triangle, diagonal) ==>
      GridSolves(side, OperatorOf(m1, triangular, triangle, transpose, diagonal), beta, GridOf(m1, matrix),
                 GridOf(m2, matrix), matrix)
    ensures m2 == m0
  {
    hide Framed, Overlap, Fits, Nonsingular, IsTriangular, GridIsProduct, GridSolves, TriangularOperationAt, GridOf;
    hide Mul;
    var t := OperatorOf(m0, triangular, triangle, transpose, diagonal);
    MatrixWellFormed(matrix, |m0|);
    OperatorKept(m0, m1, triangular, triangle, transpose, diagonal, matrix);
    GridSolvesCongruent(side, OperatorOf(m1, triangular, triangle, transpose, diagonal), t, beta, GridOf(m1, matrix),
                        GridOf(m2, matrix), matrix);
    NonsingularOperator(m0, triangular, triangle, transpose, diagonal);
    OperatorIsTriangular(m0, triangular, triangle, transpose, diagonal);
    MultiplyThenSolveIsIdentity(side, t, EffectiveUpper(triangle, transpose), alpha, beta, GridOf(m0, matrix),
                                GridOf(m1, matrix), GridOf(m2, matrix), matrix);
    FramedTwice(m0, m1, m2, matrix, Upper);
    GridUnchanged(m0, m2, matrix);
  }

  lemma {:induction false} GridMultiplyAfterSolve(
      m0: Memory, m1: Memory, m2: Memory, side: Side, triangle: Triangle, transpose: Transpose, diagonal: Diagonal,
      alpha: Scalar, beta: Scalar, triangular: View, matrix: View)
    requires |m1| == |m0| && |m2| == |m0| && Compatible(|m0|, side, triangular, matrix) && Mul(beta, alpha) == ONE
    requires Framed(m0, m1, matrix, Upper) && Framed(m1, m2, matrix, Upper)
    requires GridSolves(side, OperatorOf(m0, triangular, triangle, transpose, diagonal), alpha, GridOf(m0, matrix),
                        GridOf(m1, matrix), matrix)
    requires GridIsProduct(side, OperatorOf(m1, triangular, triangle, transpose, diagonal), beta, GridOf(m1, matrix),
                           GridOf(m2, matrix), matrix)
    ensures m2 == m0
  {
    hide Framed, Overlap, Fits, GridIsProduct, GridSolves, TriangularOperationAt, GridOf, Mul;
    var t := OperatorOf(m0, triangular, triangle, transpose, diagonal);
    MatrixWellFormed(matrix, |m0|);
    OperatorKept(m0, m1, triangular, triangle, transpose, diagonal, matrix);
    GridProductCongruent(side, OperatorOf(m1, triangular, triangle, transpose, diagonal), t, beta, GridOf(m1, matrix),
                         GridOf(m2, matrix), matrix);
    SolveThenMultiplyIsIdentity(side, t, alpha, beta, GridOf(m0, matrix), GridOf(m1, matrix), GridOf(m2, matrix),
                                matrix);
    FramedTwice(m0, m1, m2, matrix, Upper);
    GridUnchanged(m0, m2, matrix);
  }

  lemma MatrixWellFormed(matrix: View, length: nat)
    requires Fits(matrix, length)
    ensures WellFormed(matrix.form)
  {
  }

  /** Trmm with alpha and then Trsm with its reciprocal give back the whole memory. */
  method MultiplyThenSolveMatrix(
      memory: array<Scalar>, backend: Backend, side: Side, triangle: Triangle, transpose: Transpose, diagonal: Diagonal,
      alpha: Scalar, beta: Scalar, triangular: View, matrix: View)
    returns (status: Status)
    requires triangular.form.Full? && Fits(triangular, memory.Length)
    requires matrix.form.Full? && Fits(matrix, memory.Length)
    requires Mul(beta, alpha) == ONE
    requires IsSquare(triangular) ==> Nonsingular(memory[..], triangular, triangle, diagonal)
    modifies memory
    ensures status == TriangularMatrixStatus(backend, side, triangular, matrix)
    ensures memory[..] == old(memory[..])
  {
    hide TriangularMatrixStatus, Fits, Nonsingular, Overlap, GridIsProduct, GridSolves, Framed, GridOf, OperatorOf, Mul;
    ghost var m0 := memory[..];
    status := TriangularMultiply(memory, backend, side, triangle, transpose, diagonal, alpha, triangular, matrix);
    if status != Ok {
      return;
    }
    ghost var m1 := memory[..];
    AcceptedMatrix(memory.Length, backend, side, triangular, matrix);
    status := TriangularSolve(memory, backend, side, triangle, transpose, diagonal, beta, triangular, matrix);
    GridMultiplyThenSolve(m0, m1, memory[..], side, triangle, transpose, diagonal, alpha, beta, triangular, matrix);
  }

  /** Trsm with alpha and then Trmm with its reciprocal give back the whole memory. */
  method SolveThenMultiplyMatrix(
      memory: array<Scalar>, backend: Backend, side: Side, triangle: Triangle, transpose: Transpose, diagonal: Diagonal,
      alpha: Scalar, beta: Scalar, triangular: View, matrix: View)
    returns (status: Status)
    requires triangular.form.Full? && Fits(triangular, memory.Length)
    requires matrix.form.Full? && Fits(matrix, memory.Length)
    requires Mul(beta, alpha) == ONE
    requires IsSquare(triangular) ==> Nonsingular(memory[..], triangular, triangle, diagonal)
    modifies memory
    ensures status == TriangularMatrixStatus(backend, side, triangular, matrix)
    ensures memory[..] == old(memory[..])
  {
    hide TriangularMatrixStatus, Fits, Nonsingular, Overlap, GridIsProduct, GridSolves, Framed, GridOf, OperatorOf, Mul;
    ghost var m0 := memory[..];
    status := TriangularSolve(memory, backend, side, triangle, transpose, diagonal, alpha, triangular, matrix);
    if status != Ok {
      return;
    }
    ghost var m1 := memory[..];
    AcceptedMatrix(memory.Length, backend, side, triangular, matrix);
    status := TriangularMultiply(memory, backend, side, triangle, transpose, diagonal, beta, triangular, matrix);
    GridMultiplyAfterSolve(m0, m1, memory[..], side, triangle, transpose, diagonal, alpha, beta, triangular, matrix);
  }
}
