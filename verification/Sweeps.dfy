/** The writes of the in-place sweeps on one strided line of the memory. */
module Sweeps {
  import opened Scalars
  import opened Sums
  import opened Storage
  import opened Triangular
  import opened Operands

  lemma OneTimes(a: Scalar)
    ensures Mul(ONE, a) == a
  {
  }

  /** The last operation on a solved row: a division, unless the diagonal is implicit. */
  function DividePivot(diagonal: Diagonal, remainder: Scalar, pivot: Scalar): Scalar {
    if diagonal == NonUnit then Div(remainder, pivot) else remainder
  }

  lemma DividePivotSolves(diagonal: Diagonal, remainder: Scalar, pivot: Scalar)
    requires pivot != ZERO && (diagonal == Unit ==> pivot == ONE)
    ensures Mul(pivot, DividePivot(diagonal, remainder, pivot)) == remainder
  {
    if diagonal == NonUnit {
      DivideThenMultiply(remainder, pivot);
    } else {
      OneTimes(remainder);
    }
  }

  lemma ContentsAfterWrite(current: Memory, line: View, row: int, value: Scalar)
    requires line.form.Vector? && Fits(line, |current|) && 0 <= row < line.form.size
    ensures 0 <= Place(line, Upper, row, 0) < |current|
    ensures var after := current[Place(line, Upper, row, 0) := value];
      forall k :: 0 <= k < line.form.size ==>
        Contents(after, line)(k) == if k == row then value else Contents(current, line)(k)
  {
    PlaceFits(line, |current|, Upper, row, 0);
    forall k | 0 <= k < line.form.size
      ensures Contents(current[Place(line, Upper, row, 0) := value], line)(k)
              == if k == row then value else Contents(current, line)(k)
    {
      WriteEntry(current, line, Upper, row, 0, value, k, 0);
    }
  }

  /** Writing one product keeps the multiply sweep going. */
  lemma MultiplyWrite(
      t: Operator, alpha: Scalar, x0: Column, before: Memory, current: Memory, line: View,
      upper: bool, iteration: int, value: Scalar)
    requires line.form.Vector? && Fits(line, |before|) && 0 <= iteration < line.form.size
    requires IsTriangular(t, line.form.size, upper) && Framed(before, current, line, Upper)
    requires var n := line.form.size;
      && MultiplySwept(t, alpha, x0, Contents(current, line), n,
                       FinishedFrom(upper, iteration, n), FinishedTo(upper, iteration, n))
      && var row := SweepRow(upper, iteration, n);
         value == Mul(alpha, Sum(Term(t, Contents(current, line), row), if upper then row else 0,
                                 if upper then n else row + 1))
    ensures var n := line.form.size;
      var place := Place(line, Upper, SweepRow(upper, iteration, n), 0);
      && 0 <= place < |current|
      && Framed(before, current[place := value], line, Upper)
      && MultiplySwept(t, alpha, x0, Contents(current[place := value], line), n,
                       FinishedFrom(upper, iteration + 1, n), FinishedTo(upper, iteration + 1, n))
  {
    var n := line.form.size;
    var row := SweepRow(upper, iteration, n);
    WriteFramed(before, current, line, Upper, row, 0, value);
    ContentsAfterWrite(current, line, row, value);
    MultiplyStep(t, alpha, x0, Contents(current, line),
                 Contents(current[Place(line, Upper, row, 0) := value], line), n, upper, iteration);
  }

  /** Progress of a solve sweep; a zero pivot voids it. */
  ghost predicate SolveProgress(
      t: Operator, alpha: Scalar, x0: Column, memory: Memory, line: View, upper: bool, iteration: int)
    requires line.form.Vector? && Fits(line, |memory|)
  {
    var n := line.form.size;
    NonsingularDiagonal(t, n) ==>
      SolveSwept(t, alpha, x0, Contents(memory, line), n,
                 FinishedFrom(!upper, iteration, n), FinishedTo(!upper, iteration, n))
  }

  /** Writing one solved entry keeps the solve sweep going. */
  lemma SolveWrite(
      t: Operator, alpha: Scalar, x0: Column, before: Memory, current: Memory, line: View,
      upper: bool, iteration: int, diagonal: Diagonal, remainder: Scalar)
    requires line.form.Vector? && Fits(line, |before|) && 0 <= iteration < line.form.size
    requires IsTriangular(t, line.form.size, upper) && Framed(before, current, line, Upper)
    requires SolveProgress(t, alpha, x0, current, line, upper, iteration)
    requires var n := line.form.size;
      var row := SweepRow(!upper, iteration, n);
      var x := Contents(current, line);
      && remainder == Sub(Mul(alpha, x(row)), Sum(Term(t, x, row), if upper then row + 1 else 0,
                                                  if upper then n else row))
      && (diagonal == Unit ==> t(row, row) == ONE)
    ensures var n := line.form.size;
      var row := SweepRow(!upper, iteration, n);
      var place := Place(line, Upper, row, 0);
      && 0 <= place < |current|
      && var after := current[place := DividePivot(diagonal, remainder, t(row, row))];
         && Framed(before, after, line, Upper)
         && SolveProgress(t, alpha, x0, after, line, upper, iteration + 1)
  {
    hide Mul, Sub, DividePivot, Offset, Span, Lowest, IsPlace, Term, Applied, Sum;
    var n := line.form.size;
    var row := SweepRow(!upper, iteration, n);
    var value := DividePivot(diagonal, remainder, t(row, row));
    WriteFramed(before, current, line, Upper, row, 0, value);
    if NonsingularDiagonal(t, n) {
      DividePivotSolves(diagonal, remainder, t(row, row));
      ContentsAfterWrite(current, line, row, value);
      SolveStep(t, alpha, x0, Contents(current, line),
                Contents(current[Place(line, Upper, row, 0) := value], line), n, upper, iteration);
    }
  }
}
