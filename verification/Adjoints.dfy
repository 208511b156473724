/**
 The adjoint laws of the triangular kernels.  They say what the transposed and
 the conjugate-transposed operand are by how the kernels act, on vectors and on
 the lines of a matrix, for products and for solutions.
 */
module Adjoints {
  import opened Results
  import opened Scalars
  import opened Sums
  import opened Storage
  import opened Triangular
  import opened Operands
  import opened Lines
  import opened Level2
  import opened Level3
  import opened Forms
  import opened RoundTrips

  // ----- Columns ------------------------------------------------------------

  /** Products with adjoint operators. */
  lemma {:induction false} ProductsAreAdjoint(
      conjugate: bool, s: Operator, t: Operator, alpha: Scalar, beta: Scalar, x: Column, x': Column, y: Column,
      y': Column, n: nat)
    requires AreAdjoint(conjugate, s, t, n)
    requires IsProduct(s, alpha, x, x', n) && IsProduct(t, beta, y, y', n)
    ensures Mul(MaybeConjugate(conjugate, beta), Inner(conjugate, y, x', n)) == Mul(alpha, Inner(conjugate, y', x, n))
  {
    hide Mul, MaybeConjugate, AreAdjoint, Inner;
    AdjointMoves(conjugate, s, t, y, x, n);
    InnerScales(conjugate, alpha, y, Image(s, x, n), x', n);
    InnerScalesLeft(conjugate, beta, Image(t, y, n), y', x, n);
    Swap(MaybeConjugate(conjugate, beta), alpha, Inner(conjugate, y, Image(s, x, n), n));
  }

  /** Solutions for adjoint operators. */
  lemma {:induction false} SolutionsAreAdjoint(
      conjugate: bool, s: Operator, t: Operator, alpha: Scalar, beta: Scalar, b: Column, x: Column, c: Column,
      y: Column, n: nat)
    requires AreAdjoint(conjugate, s, t, n)
    requires Solves(s, alpha, b, x, n) && Solves(t, beta, c, y, n)
    ensures Mul(MaybeConjugate(conjugate, beta), Inner(conjugate, c, x, n)) == Mul(alpha, Inner(conjugate, y, b, n))
  {
    hide Mul, MaybeConjugate, AreAdjoint, Inner;
    AdjointMoves(conjugate, s, t, y, x, n);
    InnerScales(conjugate, alpha, y, b, Image(s, x, n), n);
    InnerScalesLeft(conjugate, beta, c, Image(t, y, n), x, n);
  }

  lemma Swap(a: Scalar, b: Scalar, c: Scalar)
    ensures Mul(a, Mul(b, c)) == Mul(b, Mul(a, c))
  {
    hide Mul;
    MulAssociates(a, b, c);
    MulCommutes(a, b);
    MulAssociates(b, a, c);
  }

  // ----- The operand and its transposes -------------------------------------

  /** The transposed operand is the adjoint of the operand itself. */
  lemma TransposeIsAdjoint(
      memory: Memory, view: View, triangle: Triangle, transpose: Transpose, diagonal: Diagonal)
    requires Fits(view, |memory|) && IsSquare(view) && transpose != NoTranspose
    ensures AreAdjoint(transpose == ConjugateTransposed, OperatorOf(memory, view, triangle, transpose, diagonal),
                       OperatorOf(memory, view, triangle, NoTranspose, diagonal), Order(view))
  {
    hide TriangularAt, Fits;
  }

  lemma SidesAreAdjoint(conjugate: bool, side: Side, s: Operator, t: Operator, n: int)
    requires AreAdjoint(conjugate, s, t, n)
    ensures AreAdjoint(conjugate, SideOperator(side, s), SideOperator(side, t), n)
  {
    hide MaybeConjugate;
    forall i, k | 0 <= i < n && 0 <= k < n
      ensures SideOperator(side, s)(i, k) == MaybeConjugate(conjugate, SideOperator(side, t)(k, i))
    {
      assert s(i, k) == MaybeConjugate(conjugate, t(k, i)) && s(k, i) == MaybeConjugate(conjugate, t(i, k));
    }
  }

  // ----- Two vectors --------------------------------------------------------

  /** What one run of the vector kernels leaves behind. */
  ghost predicate VectorRun(
      solve: bool, before: Memory, after: Memory, access: View, triangle: Triangle, transpose: Transpose,
      diagonal: Diagonal, vector: View)
    requires |after| == |before| && Fits(access, |before|) && IsSquare(access)
    requires vector.form.Vector? && Fits(vector, |before|)
  {
    var t := OperatorOf(before, access, triangle, transpose, diagonal);
    if solve then Solves(t, ONE, Contents(before, vector), Contents(after, vector), Order(access))
    else IsProduct(t, ONE, Contents(before, vector), Contents(after, vector), Order(access))
  }

  /** With the transposed operand on one vector and the operand itself on
      another, the inner products before and after exchange. */
  lemma {:induction false} VectorsAreAdjoint(
      solve: bool, before: Memory, a: Memory, b: Memory, access: View, triangle: Triangle, transpose: Transpose,
      diagonal: Diagonal, x: View, y: View)
    requires |a| == |before| && |b| == |before| && Fits(access, |before|) && IsSquare(access)
    requires x.form.Vector? && Fits(x, |before|) && y.form.Vector? && Fits(y, |before|)
    requires transpose != NoTranspose
    requires VectorRun(solve, before, a, access, triangle, transpose, diagonal, x)
    requires VectorRun(solve, before, b, access, triangle, NoTranspose, diagonal, y)
    ensures var conjugate := transpose == ConjugateTransposed;
      Inner(conjugate, Contents(before, y), Contents(a, x), Order(access))
      == Inner(conjugate, Contents(b, y), Contents(before, x), Order(access))
  {
    hide Mul, AreAdjoint, Inner, OperatorOf, Contents, IsProduct, Solves;
    var conjugate := transpose == ConjugateTransposed;
    var n := Order(access);
    OrderIsNatural(access, |before|);
    var s := OperatorOf(before, access, triangle, transpose, diagonal);
    var t := OperatorOf(before, access, triangle, NoTranspose, diagonal);
    TransposeIsAdjoint(before, access, triangle, transpose, diagonal);
    if solve {
      SolutionsAreAdjoint(conjugate, s, t, ONE, ONE, Contents(before, x), Contents(a, x), Contents(before, y),
                          Contents(b, y), n);
    } else {
      ProductsAreAdjoint(conjugate, s, t, ONE, ONE, Contents(before, x), Contents(a, x), Contents(before, y),
                         Contents(b, y), n);
    }
    ConjugatedOneTimes(Inner(conjugate, Contents(before, y), Contents(a, x), n));
    ConjugatedOneTimes(Inner(conjugate, Contents(b, y), Contents(before, x), n));
  }

  lemma OrderIsNatural(view: View, length: nat)
    requires Fits(view, length) && IsSquare(view)
    ensures 0 <= Order(view)
  {
  }

  lemma ConjugatedOneTimes(a: Scalar)
    ensures Mul(ONE, a) == a && Mul(MaybeConjugate(true, ONE), a) == a && Mul(MaybeConjugate(false, ONE), a) == a
  {
  }

  /** Trmv or Trsv, or their band and packed forms, with the transposed operand
      on one copy of a memory and with the operand itself on another. */
  method AdjointVectors(
      first: array<Scalar>, second: array<Scalar>, backend: Backend, triangle: Triangle, transpose: Transpose,
      diagonal: Diagonal, access: View, x: View, y: View, solve: bool)
    returns (statusX: Status, statusY: Status)
    requires first != second && first[..] == second[..] && transpose != NoTranspose
    requires Fits(access, first.Length) && IsTriangularForm(access.form)
    requires x.form.Vector? && Fits(x, first.Length) && y.form.Vector? && Fits(y, first.Length)
    requires solve && IsSquare(access) ==> Nonsingular(first[..], access, triangle, diagonal)
    modifies first, second
    ensures statusX == TriangularStatus(backend, access, x) && statusY == TriangularStatus(backend, access, y)
    ensures statusX == Ok && statusY == Ok ==>
      var conjugate := transpose == ConjugateTransposed;
      Inner(conjugate, Contents(old(second[..]), y), Contents(first[..], x), x.form.size)
      == Inner(conjugate, Contents(second[..], y), Contents(old(first[..]), x), x.form.size)
  {
    hide TriangularStatus, Fits, Nonsingular, Overlap, IsProduct, Solves, Framed, Contents, OperatorOf, Inner;
    ghost var before := first[..];
    assert first.Length == |before| == second.Length;
    statusX := TriangularOperation(first, backend, triangle, transpose, diagonal, access, x, solve);
    statusY := TriangularOperation(second, backend, triangle, NoTranspose, diagonal, access, y, solve);
    if statusX == Ok && statusY == Ok {
      AcceptedVector(backend, access, x);
      VectorsAreAdjoint(solve, before, first[..], second[..], access, triangle, transpose, diagonal, x, y);
    }
  }

  // ----- Two matrices -------------------------------------------------------

  /** What one run of the matrix kernels leaves behind. */
  ghost predicate MatrixRun(
      solve: bool, before: Memory, after: Memory, side: Side, triangle: Triangle, transpose: Transpose,
      diagonal: Diagonal, alpha: Scalar, triangular: View, matrix: View)
    requires |after| == |before| && Compatible(|before|, side, triangular, matrix)
  {
    var t := OperatorOf(before, triangular, triangle, transpose, diagonal);
    if solve then GridSolves(side, t, alpha, GridOf(before, matrix), GridOf(after, matrix), matrix)
    else GridIsProduct(side, t, alpha, GridOf(before, matrix), GridOf(after, matrix), matrix)
  }

  /** A line of a matrix: a column of the matrix on the operand's right, a row of the one on its left. */
  ghost function LineIn(side: Side, memory: Memory, matrix: View, line: int): Column
    requires matrix.form.Full? && Fits(matrix, |memory|)
  {
    var g := GridOf(memory, matrix);
    k => if side == Left then g(k, line) else g(line, k)
  }

  lemma {:induction false} MatrixRunOnLine(
      solve: bool, before: Memory, after: Memory, side: Side, triangle: Triangle, transpose: Transpose,
      diagonal: Diagonal, alpha: Scalar, triangular: View, matrix: View, line: int)
    requires |after| == |before| && Compatible(|before|, side, triangular, matrix)
    requires MatrixRun(solve, before, after, side, triangle, transpose, diagonal, alpha, triangular, matrix)
    requires 0 <= line < LineCount(side, matrix)
    ensures var t := SideOperator(side, OperatorOf(before, triangular, triangle, transpose, diagonal));
      var b, x := LineIn(side, before, matrix, line), LineIn(side, after, matrix, line);
      if solve then Solves(t, alpha, b, x, SideOrder(side, matrix))
      else IsProduct(t, alpha, b, x, SideOrder(side, matrix))
  {
    hide Mul, Overlap, OperatorOf, GridOf, GridSolves, GridIsProduct, SideOperator, Fits, SideLine;
    var n, t := SideOrder(side, matrix), OperatorOf(before, triangular, triangle, transpose, diagonal);
    var g, h := GridOf(before, matrix), GridOf(after, matrix);
    var b, x := LineIn(side, before, matrix, line), LineIn(side, after, matrix, line);
    forall k
      ensures SideLine(side, g, line)(k) == b(k) && SideLine(side, h, line)(k) == x(k)
    {
      SideLineEntry(side, g, line, k);
      SideLineEntry(side, h, line, k);
    }
    if solve {
      GridSolvesLine(side, t, alpha, g, h, matrix, line);
    } else {
      GridProductLine(side, t, alpha, g, h, matrix, line);
    }
    LineResultMoves(solve, SideOperator(side, t), alpha, SideLine(side, g, line), b, SideLine(side, h, line), x, n);
  }

  lemma {:induction false} LineResultMoves(
      solve: bool, t: Operator, alpha: Scalar, b: Column, b': Column, x: Column, x': Column, n: int)
    requires forall k :: 0 <= k < n ==> b(k) == b'(k) && x(k) == x'(k)
    requires if solve then Solves(t, alpha, b, x, n) else IsProduct(t, alpha, b, x, n)
    ensures if solve then Solves(t, alpha, b', x', n) else IsProduct(t, alpha, b', x', n)
  {
    hide Mul;
    forall i | 0 <= i < n
      ensures Applied(t, x, i, n) == Applied(t, x', i, n) && Applied(t, b, i, n) == Applied(t, b', i, n)
    {
      AppliedCongruent(t, t, x, x', i, n);
      AppliedCongruent(t, t, b, b', i, n);
    }
  }

  /** The inner products of every line of one matrix with every line of the
      other exchange, up to the two scale factors. */
  lemma {:induction false} MatricesAreAdjoint(
      solve: bool, before: Memory, a: Memory, b: Memory, side: Side, triangle: Triangle, transpose: Transpose,
      diagonal: Diagonal, alpha: Scalar, beta: Scalar, triangular: View, x: View, y: View, i: int, j: int)
    requires |a| == |before| && |b| == |before| && transpose != NoTranspose
    requires Compatible(|before|, side, triangular, x) && Compatible(|before|, side, triangular, y)
    requires MatrixRun(solve, before, a, side, triangle, transpose, diagonal, alpha, triangular, x)
    requires MatrixRun(solve, before, b, side, triangle, NoTranspose, diagonal, beta, triangular, y)
    requires 0 <= i < LineCount(side, x) && 0 <= j < LineCount(side, y)
    ensures var conjugate, n := transpose == ConjugateTransposed, Order(triangular);
      Mul(MaybeConjugate(conjugate, beta),
          Inner(conjugate, LineIn(side, before, y, j), LineIn(side, a, x, i), n))
      == Mul(alpha, Inner(conjugate, LineIn(side, b, y, j), LineIn(side, before, x, i), n))
  {
    var conjugate, n := transpose == ConjugateTransposed, Order(triangular);
    OrderIsNatural(triangular, |before|);
    hide Mul, AreAdjoint, Inner, OperatorOf, LineIn, IsProduct, Solves, MatrixRun, Fits, Overlap, SideOperator;
    hide MaybeConjugate;
    var s := OperatorOf(before, triangular, triangle, transpose, diagonal);
    var t := OperatorOf(before, triangular, triangle, NoTranspose, diagonal);
    TransposeIsAdjoint(before, triangular, triangle, transpose, diagonal);
    SidesAreAdjoint(conjugate, side, s, t, n);
    MatrixRunOnLine(solve, before, a, side, triangle, transpose, diagonal, alpha, triangular, x, i);
    MatrixRunOnLine(solve, before, b, side, triangle, NoTranspose, diagonal, beta, triangular, y, j);
    if solve {
      SolutionsAreAdjoint(conjugate, SideOperator(side, s), SideOperator(side, t), alpha, beta,
                          LineIn(side, before, x, i), LineIn(side, a, x, i), LineIn(side, before, y, j),
                          LineIn(side, b, y, j), n);
    } else {
      ProductsAreAdjoint(conjugate, SideOperator(side, s), SideOperator(side, t), alpha, beta,
                         LineIn(side, before, x, i), LineIn(side, a, x, i), LineIn(side, before, y, j),
                         LineIn(side, b, y, j), n);
    }
  }

  /** Trmm or Trsm with the transposed operand on one copy of a memory and with
      the operand itself on another. */
  method AdjointMatrices(
      first: array<Scalar>, second: array<Scalar>, backend: Backend, side: Side, triangle: Triangle,
      transpose: Transpose, diagonal: Diagonal, alpha: Scalar, beta: Scalar, triangular: View, x: View, y: View,
      solve: bool)
    returns (statusX: Status, statusY: Status)
    requires first != second && first[..] == second[..] && transpose != NoTranspose
    requires triangular.form.Full? && Fits(triangular, first.Length)
    requires x.form.Full? && Fits(x, first.Length) && y.form.Full? && Fits(y, first.Length)
    requires solve && IsSquare(triangular) ==> Nonsingular(first[..], triangular, triangle, diagonal)
    modifies first, second
    ensures statusX == TriangularMatrixStatus(backend, side, triangular, x)
    ensures statusY == TriangularMatrixStatus(backend, side, triangular, y)
    ensures statusX == Ok && statusY == Ok ==>
      var conjugate, n := transpose == ConjugateTransposed, SideOrder(side, x);
      forall i, j :: 0 <= i < LineCount(side, x) && 0 <= j < LineCount(side, y) ==>
        Mul(MaybeConjugate(conjugate, beta),
            Inner(conjugate, LineIn(side, old(second[..]), y, j), LineIn(side, first[..], x, i), n))
        == Mul(alpha, Inner(conjugate, LineIn(side, second[..], y, j), LineIn(side, old(first[..]), x, i), n))
  {
    hide TriangularMatrixStatus, Fits, Nonsingular, Overlap, GridIsProduct, GridSolves, Framed, GridOf, OperatorOf, Mul;
    hide Inner, LineIn, MaybeConjugate;
    ghost var before := first[..];
    assert first.Length == |before| == second.Length;
    if solve {
      statusX := TriangularSolve(first, backend, side, triangle, transpose, diagonal, alpha, triangular, x);
      statusY := TriangularSolve(second, backend, side, triangle, NoTranspose, diagonal, beta, triangular, y);
    } else {
      statusX := TriangularMultiply(first, backend, side, triangle, transpose, diagonal, alpha, triangular, x);
      statusY := TriangularMultiply(second, backend, side, triangle, NoTranspose, diagonal, beta, triangular, y);
    }
    if statusX == Ok && statusY == Ok {
      AcceptedMatrix(|before|, backend, side, triangular, x);
      AcceptedMatrix(|before|, backend, side, triangular, y);
      forall i, j | 0 <= i < LineCount(side, x) && 0 <= j < LineCount(side, y)
        ensures Mul(MaybeConjugate(transpose == ConjugateTransposed, beta),
                    Inner(transpose == ConjugateTransposed, LineIn(side, before, y, j), LineIn(side, first[..], x, i),
                          SideOrder(side, x)))
                == Mul(alpha, Inner(transpose == ConjugateTransposed, LineIn(side, second[..], y, j),
                                    LineIn(side, before, x, i), SideOrder(side, x)))
      {
        MatricesAreAdjoint(solve, before, first[..], second[..], side, triangle, transpose, diagonal, alpha, beta,
                           triangular, x, y, i, j);
      }
    }
  }
}
