/** In-place multiply and solve of a whole matrix by a triangular operand on either side. */
module Level3 {
  import opened Results
  import opened Scalars
  import opened Sums
  import opened Storage
  import opened Triangular
  import opened Operands
  import opened Sweeps
  import opened Lines

  /** The checks of Trmm and Trsm, in order. */
  function TriangularMatrixStatus(backend: Backend, side: Side, triangular: View, matrix: View): Status
    requires triangular.form.Full? && matrix.form.Full?
  {
    if ValidateContext(backend) != Ok then ValidateContext(backend)
    else if ValidateHostStorage(triangular) != Ok then ValidateHostStorage(triangular)
    else if ValidateHostStorage(matrix) != Ok then ValidateHostStorage(matrix)
    else if triangular.form.layout != matrix.form.layout then Failed(InvalidArgument)
    else if triangular.form.rows != triangular.form.columns then Failed(Shape)
    else if triangular.form.rows != SideOrder(side, matrix) then Failed(Shape)
    else if Overlap(triangular, matrix) then Failed(InvalidArgument)
    else Ok
  }

  /** Operands that passed the checks. */
  ghost predicate Compatible(length: nat, side: Side, triangular: View, matrix: View) {
    && triangular.form.Full? && matrix.form.Full?
    && Fits(triangular, length) && Fits(matrix, length)
    && IsSquare(triangular) && Order(triangular) == SideOrder(side, matrix)
    && !Overlap(triangular, matrix)
  }

  /** The term both kernels accumulate, in the factor order of its side. */
  function SideFactor(
      memory: Memory, side: Side, triangular: View, triangle: Triangle, transpose: Transpose, diagonal: Diagonal,
      matrix: View, line: int, position: int, index: int): Scalar
    requires triangular.form.Full? && matrix.form.Full?
    requires Fits(triangular, |memory|) && Fits(matrix, |memory|)
    requires IsSquare(triangular) && Order(triangular) == SideOrder(side, matrix)
    requires 0 <= line < LineCount(side, matrix)
    requires 0 <= position < SideOrder(side, matrix) && 0 <= index < SideOrder(side, matrix)
  {
    if side == Left then
      Mul(TriangularOperationAt(memory, triangular, triangle, transpose, diagonal, position, index),
          MatrixAt(memory, matrix, index, line))
    else
      Mul(MatrixAt(memory, matrix, line, index),
          TriangularOperationAt(memory, triangular, triangle, transpose, diagonal, index, position))
  }

  /** The accumulated term is the one of the line's own product. */
  lemma SideFactorIsTerm(
      before: Memory, current: Memory, side: Side, triangular: View, triangle: Triangle, transpose: Transpose,
      diagonal: Diagonal, matrix: View, line: int, position: int, index: int)
    requires |current| == |before| && Compatible(|before|, side, triangular, matrix)
    requires 0 <= line < LineCount(side, matrix)
    requires 0 <= position < SideOrder(side, matrix) && 0 <= index < SideOrder(side, matrix)
    requires Framed(before, current, LineAt(side, matrix, line), Upper)
    ensures Fits(LineAt(side, matrix, line), |current|)
    ensures SideFactor(current, side, triangular, triangle, transpose, diagonal, matrix, line, position, index)
            == Term(SideOperator(side, OperatorOf(before, triangular, triangle, transpose, diagonal)),
                    Contents(current, LineAt(side, matrix, line)), position)(index)
  {
    FrameWidens(side, before, current, matrix, line);
    LineContents(side, current, matrix, line, index);
    if side == Left {
      OperationUndisturbed(before, current, triangular, triangle, transpose, diagonal, matrix, Upper, position, index);
    } else {
      OperationUndisturbed(before, current, triangular, triangle, transpose, diagonal, matrix, Upper, index, position);
      MulCommutes(MatrixAt(current, matrix, line, index),
                  TriangularOperationAt(current, triangular, triangle, transpose, diagonal, index, position));
    }
  }

  /** Inner loop of both kernels: the terms of one position over `[begin, end)`. */
  method AccumulateTerms(
      memory: array<Scalar>, side: Side, triangular: View, triangle: Triangle, transpose: Transpose,
      diagonal: Diagonal, matrix: View, line: int, position: int, begin: int, end: int, start: Scalar, subtract: bool,
      ghost before: Memory)
    returns (result: Scalar)
    requires Compatible(memory.Length, side, triangular, matrix)
    requires 0 <= line < LineCount(side, matrix)
    requires 0 <= position < SideOrder(side, matrix) && 0 <= begin <= end <= SideOrder(side, matrix)
    requires Framed(before, memory[..], LineAt(side, matrix, line), Upper)
    ensures Fits(LineAt(side, matrix, line), memory.Length)
    ensures var total := Sum(Term(SideOperator(side, OperatorOf(before, triangular, triangle, transpose, diagonal)),
                                  Contents(memory[..], LineAt(side, matrix, line)), position), begin, end);
      result == if subtract then Sub(start, total) else Add(start, total)
  {
    hide Mul, SideFactor;
    LineFits(side, matrix, memory.Length, line);
    ghost var f := Term(SideOperator(side, OperatorOf(before, triangular, triangle, transpose, diagonal)),
                        Contents(memory[..], LineAt(side, matrix, line)), position);
    result := start;
    for index := begin to end
      invariant result == if subtract then Sub(start, Sum(f, begin, index)) else Add(start, Sum(f, begin, index))
    {
      SideFactorIsTerm(before, memory[..], side, triangular, triangle, transpose, diagonal, matrix, line, position,
                       index);
      var term := SideFactor(memory[..], side, triangular, triangle, transpose, diagonal, matrix, line, position,
                             index);
      result := if subtract then Sub(result, term) else Add(result, term);
    }
  }

  lemma ZeroPlus(a: Scalar)
    ensures Add(ZERO, a) == a
  {
  }

  /** Direction in which the operator, seen along a line, is triangular. */
  predicate LineUpper(side: Side, triangle: Triangle, transpose: Transpose) {
    if side == Left then EffectiveUpper(triangle, transpose) else !EffectiveUpper(triangle, transpose)
  }

  lemma LineOperatorIsTriangular(
      memory: Memory, side: Side, triangular: View, triangle: Triangle, transpose: Transpose, diagonal: Diagonal)
    requires Fits(triangular, |memory|) && IsSquare(triangular)
    ensures IsTriangular(SideOperator(side, OperatorOf(memory, triangular, triangle, transpose, diagonal)),
                         Order(triangular), LineUpper(side, triangle, transpose))
  {
    OperatorIsTriangular(memory, triangular, triangle, transpose, diagonal);
  }

  /** One line of Trmm: the sweep runs so that no term reads an overwritten entry. */
  method MultiplyLine(
      memory: array<Scalar>, side: Side, triangle: Triangle, transpose: Transpose, diagonal: Diagonal, alpha: Scalar,
      triangular: View, matrix: View, line: int)
    requires Compatible(memory.Length, side, triangular, matrix) && 0 <= line < LineCount(side, matrix)
    modifies memory
    ensures Fits(LineAt(side, matrix, line), memory.Length)
    ensures Framed(old(memory[..]), memory[..], LineAt(side, matrix, line), Upper)
    ensures IsProduct(SideOperator(side, OperatorOf(old(memory[..]), triangular, triangle, transpose, diagonal)), alpha,
                      Contents(old(memory[..]), LineAt(side, matrix, line)),
                      Contents(memory[..], LineAt(side, matrix, line)), SideOrder(side, matrix))
  {
    hide Mul, Add, Offset, Span, Lowest, TriangularOperationAt, Overlap, Sum, Contents, IsTriangular, IsPlace, Term;
    LineFits(side, matrix, memory.Length, line);
    ghost var before := memory[..];
    ghost var v := LineAt(side, matrix, line);
    ghost var t := SideOperator(side, OperatorOf(before, triangular, triangle, transpose, diagonal));
    LineOperatorIsTriangular(before, side, triangular, triangle, transpose, diagonal);
    var effectiveUpper := EffectiveUpper(triangle, transpose);
    ghost var upper := LineUpper(side, triangle, transpose);
    var count := SideOrder(side, matrix);
    for iteration := 0 to count
      invariant Framed(before, memory[..], v, Upper)
      invariant MultiplySwept(t, alpha, Contents(before, v), Contents(memory[..], v), count,
                              FinishedFrom(upper, iteration, count), FinishedTo(upper, iteration, count))
    {
      var position, begin, end;
      if side == Left {
        position := if effectiveUpper then iteration else count - 1 - iteration;
        begin := if effectiveUpper then position else 0;
        end := if effectiveUpper then count else position + 1;
      } else {
        position := if effectiveUpper then count - 1 - iteration else iteration;
        begin := if effectiveUpper then 0 else position;
        end := if effectiveUpper then position + 1 else count;
      }
      var product := AccumulateTerms(memory, side, triangular, triangle, transpose, diagonal, matrix, line,
                                     position, begin, end, ZERO, false, before);
      ZeroPlus(Sum(Term(t, Contents(memory[..], v), position), begin, end));
      MultiplyWrite(t, alpha, Contents(before, v), before, memory[..], v, upper, iteration, Mul(alpha, product));
      LinePlace(side, matrix, line, position);
      ghost var current := memory[..];
      memory[Place(matrix, Upper, SideRow(side, line, position), SideColumn(side, line, position))] :=
        Mul(alpha, product);
      assert memory[..] == current[Place(v, Upper, position, 0) := Mul(alpha, product)];
    }
  }

  /** The pivot read during the sweep is the operator's own diagonal entry. */
  lemma PivotIsDiagonal(
      before: Memory, current: Memory, side: Side, triangular: View, triangle: Triangle, transpose: Transpose,
      diagonal: Diagonal, matrix: View, line: int, position: int)
    requires |current| == |before| && Compatible(|before|, side, triangular, matrix)
    requires 0 <= line < LineCount(side, matrix) && 0 <= position < SideOrder(side, matrix)
    requires Framed(before, current, LineAt(side, matrix, line), Upper)
    ensures var t := SideOperator(side, OperatorOf(before, triangular, triangle, transpose, diagonal));
      && TriangularOperationAt(current, triangular, triangle, transpose, diagonal, position, position)
         == t(position, position)
      && (diagonal == Unit ==> t(position, position) == ONE)
  {
    FrameWidens(side, before, current, matrix, line);
    OperationUndisturbed(before, current, triangular, triangle, transpose, diagonal, matrix, Upper, position, position);
    UnitDiagonalOperator(before, triangular, triangle, transpose, position);
  }

  /** One line of Trsm: the sweep runs against the triangle, dividing by the pivot last. */
  method SolveLine(
      memory: array<Scalar>, side: Side, triangle: Triangle, transpose: Transpose, diagonal: Diagonal, alpha: Scalar,
      triangular: View, matrix: View, line: int)
    requires Compatible(memory.Length, side, triangular, matrix) && 0 <= line < LineCount(side, matrix)
    modifies memory
    ensures Fits(LineAt(side, matrix, line), memory.Length)
    ensures Framed(old(memory[..]), memory[..], LineAt(side, matrix, line), Upper)
    ensures var t := SideOperator(side, OperatorOf(old(memory[..]), triangular, triangle, transpose, diagonal));
      NonsingularDiagonal(t, SideOrder(side, matrix)) ==>
        Solves(t, alpha, Contents(old(memory[..]), LineAt(side, matrix, line)),
               Contents(memory[..], LineAt(side, matrix, line)), SideOrder(side, matrix))
  {
    hide Mul, Add, Sub, Div, Offset, Span, Lowest, TriangularOperationAt, Overlap, DividePivot, Sum, Contents;
    hide IsTriangular, IsPlace, Term;
    LineFits(side, matrix, memory.Length, line);
    ghost var before := memory[..];
    ghost var v := LineAt(side, matrix, line);
    ghost var t := SideOperator(side, OperatorOf(before, triangular, triangle, transpose, diagonal));
    LineOperatorIsTriangular(before, side, triangular, triangle, transpose, diagonal);
    var effectiveUpper := EffectiveUpper(triangle, transpose);
    ghost var upper := LineUpper(side, triangle, transpose);
    var count := SideOrder(side, matrix);
    for iteration := 0 to count
      invariant Framed(before, memory[..], v, Upper)
      invariant SolveProgress(t, alpha, Contents(before, v), memory[..], v, upper, iteration)
    {
      var position, begin, end;
      if side == Left {
        position := if effectiveUpper then count - 1 - iteration else iteration;
        begin := if effectiveUpper then position + 1 else 0;
        end := if effectiveUpper then count else position;
      } else {
        position := if effectiveUpper then iteration else count - 1 - iteration;
        begin := if effectiveUpper then 0 else position + 1;
        end := if effectiveUpper then position else count;
      }
      LineContents(side, memory[..], matrix, line, position);
      var start := Mul(alpha, MatrixAt(memory[..], matrix, SideRow(side, line, position),
                                       SideColumn(side, line, position)));
      var remainder := AccumulateTerms(memory, side, triangular, triangle, transpose, diagonal, matrix, line,
                                       position, begin, end, start, true, before);
      PivotIsDiagonal(before, memory[..], side, triangular, triangle, transpose, diagonal, matrix, line, position);
      var pivot := TriangularOperationAt(memory[..], triangular, triangle, transpose, diagonal, position, position);
      SolveWrite(t, alpha, Contents(before, v), before, memory[..], v, upper, iteration, diagonal, remainder);
      LinePlace(side, matrix, line, position);
      ghost var current := memory[..];
      var result := DividePivot(diagonal, remainder, pivot);
      memory[Place(matrix, Upper, SideRow(side, line, position), SideColumn(side, line, position))] := result;
      assert memory[..] == current[Place(v, Upper, position, 0) := result];
    }
  }

  // ----- All lines ----------------------------------------------------------

  /** What a finished line satisfies: the product, or the equations when the pivots are non-zero. */
  ghost predicate LineResult(solve: bool, t: Operator, alpha: Scalar, b: Column, x: Column, n: int) {
    if solve then NonsingularDiagonal(t, n) ==> Solves(t, alpha, b, x, n)
    else IsProduct(t, alpha, b, x, n)
  }

  lemma LineResultCongruent(
      solve: bool, t: Operator, t': Operator, alpha: Scalar, b: Column, b': Column, x: Column, x': Column, n: int)
    requires forall i, k :: 0 <= i < n && 0 <= k < n ==> t(i, k) == t'(i, k)
    requires Agree(b, b', n) && Agree(x, x', n)
    requires LineResult(solve, t, alpha, b, x, n)
    ensures LineResult(solve, t', alpha, b', x', n)
  {
    hide Mul;
    forall i | 0 <= i < n
      ensures Applied(t', x', i, n) == Applied(t, x, i, n)
      ensures Applied(t', b', i, n) == Applied(t, b, i, n)
    {
      AppliedCongruent(t', t, x', x, i, n);
      AppliedCongruent(t', t, b', b, i, n);
    }
    assert forall i :: 0 <= i < n ==> t(i, i) == t'(i, i);
  }

  /** One line of a grid. */
  ghost function SideLine(side: Side, g: Grid, line: int): Column {
    k => g(SideRow(side, line, k), SideColumn(side, line, k))
  }

  lemma SideLineEntry(side: Side, g: Grid, line: int, k: int)
    ensures SideLine(side, g, line)(k) == if side == Left then g(k, line) else g(line, k)
  {
    if side == Left {
      assert SideRow(side, line, k) == k && SideColumn(side, line, k) == line;
    } else {
      assert SideRow(side, line, k) == line && SideColumn(side, line, k) == k;
    }
  }

  lemma SideLineIsContents(side: Side, memory: Memory, matrix: View, line: int)
    requires matrix.form.Full? && Fits(matrix, |memory|) && 0 <= line < LineCount(side, matrix)
    ensures Fits(LineAt(side, matrix, line), |memory|)
    ensures Agree(SideLine(side, GridOf(memory, matrix), line), Contents(memory, LineAt(side, matrix, line)),
                  SideOrder(side, matrix))
  {
    LineFits(side, matrix, |memory|, line);
    forall k | 0 <= k < SideOrder(side, matrix)
      ensures SideLine(side, GridOf(memory, matrix), line)(k) == Contents(memory, LineAt(side, matrix, line))(k)
    {
      LineContents(side, memory, matrix, line, k);
    }
  }

  /** The first `done` lines are finished and the others untouched. */
  ghost predicate LinesDone(
      solve: bool, side: Side, t: Operator, alpha: Scalar, b: Grid, x: Grid, n: int, count: int, done: int)
  {
    forall line :: 0 <= line < count ==>
      if line < done then LineResult(solve, t, alpha, SideLine(side, b, line), SideLine(side, x, line), n)
      else Agree(SideLine(side, x, line), SideLine(side, b, line), n)
  }

  lemma OperatorUndisturbed(
      before: Memory, current: Memory, side: Side, triangular: View, triangle: Triangle, transpose: Transpose,
      diagonal: Diagonal, matrix: View, i: int, k: int)
    requires |current| == |before| && Compatible(|before|, side, triangular, matrix)
    requires Framed(before, current, matrix, Upper)
    requires 0 <= i < SideOrder(side, matrix) && 0 <= k < SideOrder(side, matrix)
    ensures SideOperator(side, OperatorOf(current, triangular, triangle, transpose, diagonal))(i, k)
            == SideOperator(side, OperatorOf(before, triangular, triangle, transpose, diagonal))(i, k)
  {
    OperationUndisturbed(before, current, triangular, triangle, transpose, diagonal, matrix, Upper, i, k);
    OperationUndisturbed(before, current, triangular, triangle, transpose, diagonal, matrix, Upper, k, i);
  }

  lemma OtherSideLine(side: Side, current: Memory, after: Memory, matrix: View, done: int, line: int)
    requires matrix.form.Full? && Fits(matrix, |current|)
    requires 0 <= done < LineCount(side, matrix) && 0 <= line < LineCount(side, matrix) && line != done
    requires Framed(current, after, LineAt(side, matrix, done), Upper)
    ensures Agree(SideLine(side, GridOf(after, matrix), line), SideLine(side, GridOf(current, matrix), line),
                  SideOrder(side, matrix))
  {
    hide Fits, Contents;
    SideLineIsContents(side, current, matrix, line);
    SideLineIsContents(side, after, matrix, line);
    OtherLineUndisturbed(side, current, after, matrix, done, line);
  }

  /** Finishing one more line keeps the finished ones and the untouched ones. */
  lemma NextLineDone(
      before: Memory, current: Memory, after: Memory, solve: bool, side: Side, triangle: Triangle, transpose: Transpose,
      diagonal: Diagonal, alpha: Scalar, triangular: View, matrix: View, done: int)
    requires |current| == |before| && Compatible(|before|, side, triangular, matrix)
    requires 0 <= done < LineCount(side, matrix)
    requires Framed(before, current, matrix, Upper)
    requires LinesDone(solve, side, SideOperator(side, OperatorOf(before, triangular, triangle, transpose, diagonal)),
                       alpha, GridOf(before, matrix), GridOf(current, matrix), SideOrder(side, matrix),
                       LineCount(side, matrix), done)
    requires Framed(current, after, LineAt(side, matrix, done), Upper)
    requires Fits(LineAt(side, matrix, done), |before|)
    requires LineResult(solve, SideOperator(side, OperatorOf(current, triangular, triangle, transpose, diagonal)),
                        alpha, Contents(current, LineAt(side, matrix, done)),
                        Contents(after, LineAt(side, matrix, done)), SideOrder(side, matrix))
    ensures Framed(before, after, matrix, Upper)
    ensures LinesDone(solve, side, SideOperator(side, OperatorOf(before, triangular, triangle, transpose, diagonal)),
                      alpha, GridOf(before, matrix), GridOf(after, matrix), SideOrder(side, matrix),
                      LineCount(side, matrix), done + 1)
  {
    hide Overlap, Fits, Contents, GridOf, LineResult, Agree, Offset, Span, TriangularOperationAt, OperatorOf;
    hide SideOperator;
    FrameWidens(side, current, after, matrix, done);
    FrameComposes(before, current, after, matrix, Upper);
    var n := SideOrder(side, matrix);
    var t := SideOperator(side, OperatorOf(before, triangular, triangle, transpose, diagonal));
    var t' := SideOperator(side, OperatorOf(current, triangular, triangle, transpose, diagonal));
    var b, x, x' := GridOf(before, matrix), GridOf(current, matrix), GridOf(after, matrix);
    forall i, k | 0 <= i < n && 0 <= k < n
      ensures t'(i, k) == t(i, k)
    {
      OperatorUndisturbed(before, current, side, triangular, triangle, transpose, diagonal, matrix, i, k);
    }
    forall line | 0 <= line < LineCount(side, matrix)
      ensures if line < done + 1 then LineResult(solve, t, alpha, SideLine(side, b, line), SideLine(side, x', line), n)
              else Agree(SideLine(side, x', line), SideLine(side, b, line), n)
    {
      if line == done {
        SideLineIsContents(side, current, matrix, line);
        SideLineIsContents(side, after, matrix, line);
        AgreeSymmetric(SideLine(side, x, line), Contents(current, LineAt(side, matrix, line)), n);
        AgreeSymmetric(SideLine(side, x', line), Contents(after, LineAt(side, matrix, line)), n);
        AgreeTransitive(Contents(current, LineAt(side, matrix, line)), SideLine(side, x, line), SideLine(side, b, line),
                        n);
        LineResultCongruent(solve, t', t, alpha, Contents(current, LineAt(side, matrix, line)), SideLine(side, b, line),
                            Contents(after, LineAt(side, matrix, line)), SideLine(side, x', line), n);
      } else {
        OtherSideLine(side, current, after, matrix, done, line);
        if line < done {
          AgreeSymmetric(SideLine(side, x', line), SideLine(side, x, line), n);
          AgreeReflexive(SideLine(side, b, line), n);
          LineResultCongruent(solve, t, t, alpha, SideLine(side, b, line), SideLine(side, b, line),
                              SideLine(side, x, line), SideLine(side, x', line), n);
        } else {
          AgreeTransitive(SideLine(side, x', line), SideLine(side, x, line), SideLine(side, b, line), n);
        }
      }
    }
  }

  lemma AgreeReflexive(x: Column, n: int)
    ensures Agree(x, x, n)
  {
  }

  lemma AgreeSymmetric(x: Column, y: Column, n: int)
    requires Agree(x, y, n)
    ensures Agree(y, x, n)
  {
  }

  lemma AgreeTransitive(x: Column, y: Column, z: Column, n: int)
    requires Agree(x, y, n) && Agree(y, z, n)
    ensures Agree(x, z, n)
  {
  }

  // ----- Trmm and Trsm ------------------------------------------------------

  /** Every entry of `y` is `alpha` times the operator's product with `b`. */
  ghost predicate GridIsProduct(side: Side, t: Operator, alpha: Scalar, b: Grid, y: Grid, matrix: View)
    requires matrix.form.Full?
  {
    forall row, column :: InMatrix(matrix, row, column) ==>
      y(row, column) == Mul(alpha, SideProduct(side, t, b, row, column, SideOrder(side, matrix)))
  }

  /** The operator's product with `x` is `alpha` times `b` in every entry. */
  ghost predicate GridSolves(side: Side, t: Operator, alpha: Scalar, b: Grid, x: Grid, matrix: View)
    requires matrix.form.Full?
  {
    forall row, column :: InMatrix(matrix, row, column) ==>
      SideProduct(side, t, x, row, column, SideOrder(side, matrix)) == Mul(alpha, b(row, column))
  }

  lemma SideProductOnLine(side: Side, t: Operator, g: Grid, line: int, index: int, n: int)
    ensures SideProduct(side, t, g, SideRow(side, line, index), SideColumn(side, line, index), n)
            == Applied(SideOperator(side, t), SideLine(side, g, line), index, n)
  {
    var f := SideTerm(side, t, g, SideRow(side, line, index), SideColumn(side, line, index));
    var h := Term(SideOperator(side, t), SideLine(side, g, line), index);
    forall k | 0 <= k < n
      ensures f(k) == h(k)
    {
      SideLineEntry(side, g, line, k);
      MulCommutes(g(line, k), t(k, index));
    }
    SumCongruent(f, h, 0, n);
  }

  lemma SideDiagonal(side: Side, t: Operator, n: int)
    ensures NonsingularDiagonal(t, n) == NonsingularDiagonal(SideOperator(side, t), n)
  {
    assert forall i :: 0 <= i < n ==> t(i, i) == SideOperator(side, t)(i, i);
  }

  /** Line by line and entry by entry say the same. */
  lemma {:induction false} LinesAreGrid(
      solve: bool, side: Side, t: Operator, alpha: Scalar, b: Grid, x: Grid, matrix: View)
    requires matrix.form.Full?
    requires LinesDone(solve, side, SideOperator(side, t), alpha, b, x, SideOrder(side, matrix),
                       LineCount(side, matrix), LineCount(side, matrix))
    ensures !solve ==> GridIsProduct(side, t, alpha, b, x, matrix)
    ensures solve && NonsingularDiagonal(t, SideOrder(side, matrix)) ==> GridSolves(side, t, alpha, b, x, matrix)
  {
    hide Mul;
    var n := SideOrder(side, matrix);
    SideDiagonal(side, t, n);
    forall row, column | InMatrix(matrix, row, column) && (solve ==> NonsingularDiagonal(t, n))
      ensures !solve ==> x(row, column) == Mul(alpha, SideProduct(side, t, b, row, column, n))
      ensures solve ==> SideProduct(side, t, x, row, column, n) == Mul(alpha, b(row, column))
    {
      var line, index := if side == Left then column else row, if side == Left then row else column;
      assert LineResult(solve, SideOperator(side, t), alpha, SideLine(side, b, line), SideLine(side, x, line), n);
      SideProductOnLine(side, t, b, line, index, n);
      SideProductOnLine(side, t, x, line, index, n);
      assert SideLine(side, x, line)(index) == x(row, column) && SideLine(side, b, line)(index) == b(row, column);
    }
  }

  method FillZero(memory: array<Scalar>, matrix: View)
    requires matrix.form.Full? && Fits(matrix, memory.Length)
    modifies memory
    ensures Framed(old(memory[..]), memory[..], matrix, Upper)
    ensures forall row, column :: InMatrix(matrix, row, column) ==> MatrixAt(memory[..], matrix, row, column) == ZERO
  {
    hide Offset, Span, Lowest;
    ghost var before := memory[..];
    for row := 0 to matrix.form.rows
      invariant Framed(before, memory[..], matrix, Upper)
      invariant forall r, c :: InMatrix(matrix, r, c) && r < row ==> MatrixAt(memory[..], matrix, r, c) == ZERO
    {
      for column := 0 to matrix.form.columns
        invariant Framed(before, memory[..], matrix, Upper)
        invariant forall r, c :: InMatrix(matrix, r, c) && (r < row || (r == row && c < column)) ==>
                    MatrixAt(memory[..], matrix, r, c) == ZERO
      {
        ghost var current := memory[..];
        WriteFramed(before, current, matrix, Upper, row, column, ZERO);
        memory[Place(matrix, Upper, row, column)] := ZERO;
        assert memory[..] == current[Place(matrix, Upper, row, column) := ZERO];
        forall r, c | InMatrix(matrix, r, c)
          ensures MatrixAt(memory[..], matrix, r, c)
                  == if r == row && c == column then ZERO else MatrixAt(current, matrix, r, c)
        {
          WriteEntry(current, matrix, Upper, row, column, ZERO, r, c);
        }
      }
    }
  }

  lemma {:induction false} ZeroGridSolves(side: Side, t: Operator, b: Grid, x: Grid, matrix: View)
    requires matrix.form.Full?
    requires forall row, column :: InMatrix(matrix, row, column) ==> x(row, column) == ZERO
    ensures GridIsProduct(side, t, ZERO, b, x, matrix) && GridSolves(side, t, ZERO, b, x, matrix)
  {
    var n := SideOrder(side, matrix);
    forall row, column | InMatrix(matrix, row, column)
      ensures Mul(ZERO, SideProduct(side, t, b, row, column, n)) == ZERO
      ensures Mul(ZERO, b(row, column)) == ZERO
      ensures SideProduct(side, t, x, row, column, n) == ZERO
    {
      ZeroTimes(SideProduct(side, t, b, row, column, n));
      ZeroTimes(b(row, column));
      forall k | 0 <= k < n
        ensures SideTerm(side, t, x, row, column)(k) == ZERO
      {
        ZeroTimes(t(row, k));
        MulCommutes(t(row, k), ZERO);
        ZeroTimes(t(k, column));
      }
      SumVanishes(SideTerm(side, t, x, row, column), 0, n);
    }
  }

  /** Trmm: the matrix becomes alpha times its product with the operand, in place. */
  method TriangularMultiply(
      memory: array<Scalar>, backend: Backend, side: Side, triangle: Triangle, transpose: Transpose, diagonal: Diagonal,
      alpha: Scalar, triangular: View, matrix: View)
    returns (status: Status)
    requires triangular.form.Full? && Fits(triangular, memory.Length)
    requires matrix.form.Full? && Fits(matrix, memory.Length)
    modifies memory
    ensures status == TriangularMatrixStatus(backend, side, triangular, matrix)
    ensures status != Ok ==> memory[..] == old(memory[..])
    ensures status == Ok ==>
      && Framed(old(memory[..]), memory[..], matrix, Upper)
      && GridIsProduct(side, OperatorOf(old(memory[..]), triangular, triangle, transpose, diagonal), alpha,
                       GridOf(old(memory[..]), matrix), GridOf(memory[..], matrix), matrix)
  {
    hide Mul, Overlap, Offset, Span, Lowest, IsProduct, OperatorOf, SideOperator, GridOf, GridIsProduct, Agree;
    status := TriangularMatrixStatus(backend, side, triangular, matrix);
    if status != Ok {
      return;
    }
    ghost var before := memory[..];
    ghost var t := OperatorOf(before, triangular, triangle, transpose, diagonal);
    if alpha == ZERO {
      FillZero(memory, matrix);
      GridIsZero(memory[..], matrix);
      ZeroGridSolves(side, t, GridOf(before, matrix), GridOf(memory[..], matrix), matrix);
      return;
    }
    ghost var b := GridOf(before, matrix);
    NoLinesDone(false, side, SideOperator(side, t), alpha, b, SideOrder(side, matrix), LineCount(side, matrix));
    for line := 0 to LineCount(side, matrix)
      invariant Framed(before, memory[..], matrix, Upper)
      invariant LinesDone(false, side, SideOperator(side, t), alpha, b, GridOf(memory[..], matrix),
                          SideOrder(side, matrix), LineCount(side, matrix), line)
    {
      ghost var current := memory[..];
      MultiplyLine(memory, side, triangle, transpose, diagonal, alpha, triangular, matrix, line);
      NextLineDone(before, current, memory[..], false, side, triangle, transpose, diagonal, alpha, triangular, matrix,
                   line);
    }
    LinesAreGrid(false, side, t, alpha, b, GridOf(memory[..], matrix), matrix);
  }

  lemma GridIsZero(memory: Memory, matrix: View)
    requires matrix.form.Full? && Fits(matrix, |memory|)
    requires forall row, column :: InMatrix(matrix, row, column) ==> MatrixAt(memory, matrix, row, column) == ZERO
    ensures forall row, column :: InMatrix(matrix, row, column) ==> GridOf(memory, matrix)(row, column) == ZERO
  {
  }

  lemma NoLinesDone(solve: bool, side: Side, t: Operator, alpha: Scalar, b: Grid, n: int, count: int)
    ensures LinesDone(solve, side, t, alpha, b, b, n, count, 0)
  {
  }

  /** Trsm: the matrix becomes the solution of the system with right-hand side alpha times itself, in place. */
  method TriangularSolve(
      memory: array<Scalar>, backend: Backend, side: Side, triangle: Triangle, transpose: Transpose, diagonal: Diagonal,
      alpha: Scalar, triangular: View, matrix: View)
    returns (status: Status)
    requires triangular.form.Full? && Fits(triangular, memory.Length)
    requires matrix.form.Full? && Fits(matrix, memory.Length)
    modifies memory
    ensures status == TriangularMatrixStatus(backend, side, triangular, matrix)
    ensures status != Ok ==> memory[..] == old(memory[..])
    ensures status == Ok ==>
      && Framed(old(memory[..]), memory[..], matrix, Upper)
      && (Nonsingular(old(memory[..]), triangular, triangle, diagonal) || alpha == ZERO ==>
            GridSolves(side, OperatorOf(old(memory[..]), triangular, triangle, transpose, diagonal), alpha,
                       GridOf(old(memory[..]), matrix), GridOf(memory[..], matrix), matrix))
  {
    hide Mul, Overlap, Offset, Span, Lowest, Solves, OperatorOf, SideOperator, GridOf, GridSolves, Agree, Nonsingular;
    status := TriangularMatrixStatus(backend, side, triangular, matrix);
    if status != Ok {
      return;
    }
    ghost var before := memory[..];
    ghost var t := OperatorOf(before, triangular, triangle, transpose, diagonal);
    if alpha == ZERO {
      FillZero(memory, matrix);
      GridIsZero(memory[..], matrix);
      ZeroGridSolves(side, t, GridOf(before, matrix), GridOf(memory[..], matrix), matrix);
      return;
    }
    if Nonsingular(before, triangular, triangle, diagonal) {
      NonsingularOperator(before, triangular, triangle, transpose, diagonal);
    }
    ghost var b := GridOf(before, matrix);
    NoLinesDone(true, side, SideOperator(side, t), alpha, b, SideOrder(side, matrix), LineCount(side, matrix));
    for line := 0 to LineCount(side, matrix)
      invariant Framed(before, memory[..], matrix, Upper)
      invariant LinesDone(true, side, SideOperator(side, t), alpha, b, GridOf(memory[..], matrix),
                          SideOrder(side, matrix), LineCount(side, matrix), line)
    {
      ghost var current := memory[..];
      SolveLine(memory, side, triangle, transpose, diagonal, alpha, triangular, matrix, line);
      NextLineDone(before, current, memory[..], true, side, triangle, transpose, diagonal, alpha, triangular, matrix,
                   line);
    }
    LinesAreGrid(true, side, t, alpha, b, GridOf(memory[..], matrix), matrix);
  }

  // ----- What the pair of kernels guarantees --------------------------------

  ghost predicate SameEntries(a: Grid, b: Grid, matrix: View)
    requires matrix.form.Full?
  {
    forall row, column :: InMatrix(matrix, row, column) ==> a(row, column) == b(row, column)
  }

  lemma {:induction false} GridSolvesLine(
      side: Side, t: Operator, alpha: Scalar, b: Grid, x: Grid, matrix: View, line: int)
    requires matrix.form.Full? && 0 <= line < LineCount(side, matrix)
    requires GridSolves(side, t, alpha, b, x, matrix)
    ensures Solves(SideOperator(side, t), alpha, SideLine(side, b, line), SideLine(side, x, line),
                   SideOrder(side, matrix))
  {
    forall index | 0 <= index < SideOrder(side, matrix)
      ensures Applied(SideOperator(side, t), SideLine(side, x, line), index, SideOrder(side, matrix))
              == Mul(alpha, SideLine(side, b, line)(index))
    {
      assert InMatrix(matrix, SideRow(side, line, index), SideColumn(side, line, index));
      SideProductOnLine(side, t, x, line, index, SideOrder(side, matrix));
    }
  }

  lemma {:induction false} GridProductLine(
      side: Side, t: Operator, alpha: Scalar, b: Grid, y: Grid, matrix: View, line: int)
    requires matrix.form.Full? && 0 <= line < LineCount(side, matrix)
    requires GridIsProduct(side, t, alpha, b, y, matrix)
    ensures IsProduct(SideOperator(side, t), alpha, SideLine(side, b, line), SideLine(side, y, line),
                      SideOrder(side, matrix))
  {
    forall index | 0 <= index < SideOrder(side, matrix)
      ensures SideLine(side, y, line)(index)
              == Mul(alpha, Applied(SideOperator(side, t), SideLine(side, b, line), index, SideOrder(side, matrix)))
    {
      assert InMatrix(matrix, SideRow(side, line, index), SideColumn(side, line, index));
      SideProductOnLine(side, t, b, line, index, SideOrder(side, matrix));
    }
  }

  /** Lines that agree everywhere make equal matrices. */
  lemma LinesAgree(side: Side, a: Grid, b: Grid, matrix: View)
    requires matrix.form.Full?
    requires forall line :: 0 <= line < LineCount(side, matrix) ==>
      Agree(SideLine(side, a, line), SideLine(side, b, line), SideOrder(side, matrix))
    ensures SameEntries(a, b, matrix)
  {
    forall row, column | InMatrix(matrix, row, column)
      ensures a(row, column) == b(row, column)
    {
      var line, index := if side == Left then column else row, if side == Left then row else column;
      assert Agree(SideLine(side, a, line), SideLine(side, b, line), SideOrder(side, matrix));
      assert SideLine(side, a, line)(index) == SideLine(side, b, line)(index);
      SideLineEntry(side, a, line, index);
      SideLineEntry(side, b, line, index);
    }
  }

  /** The system a solve answers has no other solution. */
  lemma GridSolutionIsUnique(
      side: Side, t: Operator, upper: bool, alpha: Scalar, b: Grid, x: Grid, y: Grid, matrix: View)
    requires matrix.form.Full? && WellFormed(matrix.form)
    requires IsTriangular(t, SideOrder(side, matrix), upper) && NonsingularDiagonal(t, SideOrder(side, matrix))
    requires GridSolves(side, t, alpha, b, x, matrix) && GridSolves(side, t, alpha, b, y, matrix)
    ensures SameEntries(x, y, matrix)
  {
    var n := SideOrder(side, matrix);
    SideDiagonal(side, t, n);
    forall line | 0 <= line < LineCount(side, matrix)
      ensures Agree(SideLine(side, x, line), SideLine(side, y, line), n)
    {
      GridSolvesLine(side, t, alpha, b, x, matrix, line);
      GridSolvesLine(side, t, alpha, b, y, matrix, line);
      SolutionIsUnique(SideOperator(side, t), alpha, SideLine(side, b, line), SideLine(side, x, line),
                       SideLine(side, y, line), n, if side == Left then upper else !upper);
    }
    LinesAgree(side, x, y, matrix);
  }

  /** Trmm with alpha and then Trsm with its reciprocal restore every entry. */
  lemma MultiplyThenSolveIsIdentity(
      side: Side, t: Operator, upper: bool, alpha: Scalar, beta: Scalar, b: Grid, y: Grid, x: Grid, matrix: View)
    requires matrix.form.Full? && WellFormed(matrix.form) && Mul(beta, alpha) == ONE
    requires IsTriangular(t, SideOrder(side, matrix), upper) && NonsingularDiagonal(t, SideOrder(side, matrix))
    requires GridIsProduct(side, t, alpha, b, y, matrix) && GridSolves(side, t, beta, y, x, matrix)
    ensures SameEntries(x, b, matrix)
  {
    var n := SideOrder(side, matrix);
    SideDiagonal(side, t, n);
    forall line | 0 <= line < LineCount(side, matrix)
      ensures Agree(SideLine(side, x, line), SideLine(side, b, line), n)
    {
      GridProductLine(side, t, alpha, b, y, matrix, line);
      GridSolvesLine(side, t, beta, y, x, matrix, line);
      MultiplyThenSolveRestores(SideOperator(side, t), alpha, beta, SideLine(side, b, line), SideLine(side, y, line),
                                SideLine(side, x, line), n, if side == Left then upper else !upper);
    }
    LinesAgree(side, x, b, matrix);
  }

  /** Trsm with alpha and then Trmm with its reciprocal restore every entry. */
  lemma SolveThenMultiplyIsIdentity(
      side: Side, t: Operator, alpha: Scalar, beta: Scalar, b: Grid, x: Grid, y: Grid, matrix: View)
    requires matrix.form.Full? && Mul(beta, alpha) == ONE
    requires GridSolves(side, t, alpha, b, x, matrix) && GridIsProduct(side, t, beta, x, y, matrix)
    ensures SameEntries(y, b, matrix)
  {
    forall line | 0 <= line < LineCount(side, matrix)
      ensures Agree(SideLine(side, y, line), SideLine(side, b, line), SideOrder(side, matrix))
    {
      GridSolvesLine(side, t, alpha, b, x, matrix, line);
      GridProductLine(side, t, beta, x, y, matrix, line);
      SolveThenMultiplyRestores(SideOperator(side, t), alpha, beta, SideLine(side, b, line), SideLine(side, x, line),
                                SideLine(side, y, line), SideOrder(side, matrix));
    }
    LinesAgree(side, y, b, matrix);
  }
}
