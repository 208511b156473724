/**
 Triangular systems in exact arithmetic, free of storage: products with a
 triangular operator, solutions of triangular systems, and the two sweeps
 that compute them in place.
 */
module Triangular {
  import opened Scalars
  import opened Sums

  type Operator = (int, int) -> Scalar
  type Column = int -> Scalar

  ghost function Term(t: Operator, x: Column, i: int): int -> Scalar {
    k => Mul(t(i, k), x(k))
  }

  /** Entry `i` of the operator applied to `x`, summed over the full range. */
  ghost function Applied(t: Operator, x: Column, i: int, n: int): Scalar {
    Sum(Term(t, x, i), 0, n)
  }

  ghost predicate IsTriangular(t: Operator, n: int, upper: bool) {
    forall i, k :: 0 <= i < n && 0 <= k < n && (if upper then k < i else i < k) ==> t(i, k) == ZERO
  }

  ghost predicate NonsingularDiagonal(t: Operator, n: int) {
    forall i :: 0 <= i < n ==> t(i, i) != ZERO
  }

  ghost predicate Agree(x: Column, y: Column, n: int) {
    forall k :: 0 <= k < n ==> x(k) == y(k)
  }

  /** `x` solves the system with right-hand side `alpha * b`. */
  ghost predicate Solves(t: Operator, alpha: Scalar, b: Column, x: Column, n: int) {
    forall i :: 0 <= i < n ==> Applied(t, x, i, n) == Mul(alpha, b(i))
  }

  /** `y` is `alpha` times the operator applied to `b`. */
  ghost predicate IsProduct(t: Operator, alpha: Scalar, b: Column, y: Column, n: int) {
    forall i :: 0 <= i < n ==> y(i) == Mul(alpha, Applied(t, b, i, n))
  }

  lemma AppliedCongruent(t: Operator, s: Operator, x: Column, y: Column, i: int, n: int)
    requires forall k :: 0 <= k < n ==> t(i, k) == s(i, k) && (t(i, k) == ZERO || x(k) == y(k))
    ensures Applied(t, x, i, n) == Applied(s, y, i, n)
  {
    forall k | 0 <= k < n
      ensures Term(t, x, i)(k) == Term(s, y, i)(k)
    {
      if t(i, k) == ZERO {
        ZeroTimes(x(k));
        ZeroTimes(y(k));
      }
    }
    SumCongruent(Term(t, x, i), Term(s, y, i), 0, n);
  }

  lemma ZeroTimes(a: Scalar)
    ensures Mul(ZERO, a) == ZERO
  {
  }

  /** The range a kernel sums over carries the whole product. */
  lemma {:induction false} AppliedNarrows(t: Operator, x: Column, i: int, lo: int, hi: int, n: int)
    requires 0 <= lo <= hi <= n
    requires forall k :: 0 <= k < lo || hi <= k < n ==> t(i, k) == ZERO
    ensures Applied(t, x, i, n) == Sum(Term(t, x, i), lo, hi)
  {
    forall k | 0 <= k < lo || hi <= k < n
      ensures Term(t, x, i)(k) == ZERO
    {
      ZeroTimes(x(k));
    }
    SumWidens(Term(t, x, i), 0, lo, hi, n);
  }

  /** The product splits into its diagonal term and everything else. */
  lemma {:induction false} AppliedSplits(t: Operator, x: Column, i: int, n: int)
    requires 0 <= i < n
    ensures Applied(t, x, i, n)
            == Add(Mul(t(i, i), x(i)), Add(Sum(Term(t, x, i), 0, i), Sum(Term(t, x, i), i + 1, n)))
  {
    var f := Term(t, x, i);
    SumSplits(f, 0, i, n);
    SumSplits(f, i, i + 1, n);
    assert Sum(f, i, i + 1) == Add(Sum(f, i, i), f(i));
    Regroup(Sum(f, 0, i), f(i), Sum(f, i + 1, n));
  }

  lemma Regroup(a: Scalar, b: Scalar, c: Scalar)
    ensures Add(a, Add(Add(ZERO, b), c)) == Add(b, Add(a, c))
  {
  }

  lemma AddCancels(a: Scalar, b: Scalar, s: Scalar)
    requires Add(a, s) == Add(b, s)
    ensures a == b
  {
  }

  /** Rows that already agree determine the next one. */
  lemma {:induction false} NextRowAgrees(t: Operator, x: Column, y: Column, i: int, n: int)
    requires 0 <= i < n && t(i, i) != ZERO
    requires Applied(t, x, i, n) == Applied(t, y, i, n)
    requires forall k :: 0 <= k < n && k != i ==> t(i, k) == ZERO || x(k) == y(k)
    ensures x(i) == y(i)
  {
    AppliedSplits(t, x, i, n);
    AppliedSplits(t, y, i, n);
    forall k | 0 <= k < n && k != i
      ensures Term(t, x, i)(k) == Term(t, y, i)(k)
    {
      ZeroTimes(x(k));
      ZeroTimes(y(k));
    }
    SumCongruent(Term(t, x, i), Term(t, y, i), 0, i);
    SumCongruent(Term(t, x, i), Term(t, y, i), i + 1, n);
    AddCancels(Mul(t(i, i), x(i)), Mul(t(i, i), y(i)),
               Add(Sum(Term(t, x, i), 0, i), Sum(Term(t, x, i), i + 1, n)));
    Cancel(t(i, i), x(i), y(i));
  }

  lemma {:induction false} AgreeFrom(t: Operator, x: Column, y: Column, n: int, upper: bool, settled: int)
    requires 0 <= settled <= n
    requires IsTriangular(t, n, upper) && NonsingularDiagonal(t, n)
    requires forall i :: 0 <= i < n ==> Applied(t, x, i, n) == Applied(t, y, i, n)
    requires forall k :: 0 <= k < n && (if upper then n - settled <= k else k < settled) ==> x(k) == y(k)
    ensures Agree(x, y, n)
    decreases n - settled
  {
    if settled < n {
      var i := if upper then n - 1 - settled else settled;
      NextRowAgrees(t, x, y, i, n);
      AgreeFrom(t, x, y, n, upper, settled + 1);
    }
  }

  /** A triangular system with a non-zero diagonal has at most one solution. */
  lemma SolutionIsUnique(t: Operator, alpha: Scalar, b: Column, x: Column, y: Column, n: int, upper: bool)
    requires 0 <= n && IsTriangular(t, n, upper) && NonsingularDiagonal(t, n)
    requires Solves(t, alpha, b, x, n) && Solves(t, alpha, b, y, n)
    ensures Agree(x, y, n)
  {
    AgreeFrom(t, x, y, n, upper, 0);
  }

  lemma ReciprocalCancels(alpha: Scalar, beta: Scalar, v: Scalar)
    requires Mul(beta, alpha) == ONE
    ensures Mul(beta, Mul(alpha, v)) == v
  {
    MulAssociates(beta, alpha, v);
  }

  /** Multiplying by `alpha` and solving with its reciprocal restores every entry. */
  lemma MultiplyThenSolveRestores(
      t: Operator, alpha: Scalar, beta: Scalar, b: Column, y: Column, x: Column, n: int, upper: bool)
    requires 0 <= n && IsTriangular(t, n, upper) && NonsingularDiagonal(t, n)
    requires Mul(beta, alpha) == ONE
    requires IsProduct(t, alpha, b, y, n) && Solves(t, beta, y, x, n)
    ensures Agree(x, b, n)
  {
    forall i | 0 <= i < n
      ensures Applied(t, x, i, n) == Applied(t, b, i, n)
    {
      ReciprocalCancels(alpha, beta, Applied(t, b, i, n));
    }
    AgreeFrom(t, x, b, n, upper, 0);
  }

  /** Solving with `alpha` and multiplying by its reciprocal restores every entry. */
  lemma SolveThenMultiplyRestores(t: Operator, alpha: Scalar, beta: Scalar, b: Column, x: Column, y: Column, n: int)
    requires Mul(beta, alpha) == ONE
    requires Solves(t, alpha, b, x, n) && IsProduct(t, beta, x, y, n)
    ensures Agree(y, b, n)
  {
    forall i | 0 <= i < n
      ensures y(i) == b(i)
    {
      ReciprocalCancels(alpha, beta, b(i));
    }
  }

  // ----- In-place sweeps ----------------------------------------------------

  /** Rows `[lo, hi)` hold the product; the others still hold the input. */
  ghost predicate MultiplySwept(t: Operator, alpha: Scalar, x0: Column, x: Column, n: int, lo: int, hi: int) {
    forall k :: 0 <= k < n ==> x(k) == if lo <= k < hi then Mul(alpha, Applied(t, x0, k, n)) else x0(k)
  }

  /** Rows `[lo, hi)` satisfy their equations; the others still hold the input. */
  ghost predicate SolveSwept(t: Operator, alpha: Scalar, x0: Column, x: Column, n: int, lo: int, hi: int) {
    forall k :: 0 <= k < n ==>
      if lo <= k < hi then Applied(t, x, k, n) == Mul(alpha, x0(k)) else x(k) == x0(k)
  }

  /** The rows a sweep has finished after `iteration` steps: an increasing
      sweep finishes a prefix, a decreasing one a suffix. */
  function FinishedFrom(increasing: bool, iteration: int, n: int): int {
    if increasing then 0 else n - iteration
  }

  function FinishedTo(increasing: bool, iteration: int, n: int): int {
    if increasing then iteration else n
  }

  function SweepRow(increasing: bool, iteration: int, n: int): int {
    if increasing then iteration else n - 1 - iteration
  }

  /** One multiply step reads only rows it has not overwritten. */
  lemma {:induction false} MultiplyStep(
      t: Operator, alpha: Scalar, x0: Column, x: Column, x': Column, n: int, upper: bool, iteration: int)
    requires 0 <= iteration < n && IsTriangular(t, n, upper)
    requires MultiplySwept(t, alpha, x0, x, n, FinishedFrom(upper, iteration, n), FinishedTo(upper, iteration, n))
    requires var row := SweepRow(upper, iteration, n);
      && (forall k :: 0 <= k < n && k != row ==> x'(k) == x(k))
      && x'(row) == Mul(alpha, Sum(Term(t, x, row), if upper then row else 0, if upper then n else row + 1))
    ensures MultiplySwept(t, alpha, x0, x', n, FinishedFrom(upper, iteration + 1, n),
                          FinishedTo(upper, iteration + 1, n))
  {
    var row := SweepRow(upper, iteration, n);
    var lo, hi := if upper then row else 0, if upper then n else row + 1;
    SumCongruent(Term(t, x, row), Term(t, x0, row), lo, hi);
    AppliedNarrows(t, x0, row, lo, hi, n);
  }

  lemma SolvedRow(s: Scalar, r: Scalar, d: Scalar, v: Scalar)
    requires Mul(d, v) == Sub(r, s)
    ensures Add(Mul(d, v), Add(ZERO, s)) == r && Add(Mul(d, v), Add(s, ZERO)) == r
  {
  }

  /** One solve step completes its own row and disturbs no finished one. */
  lemma {:induction false} SolveStep(
      t: Operator, alpha: Scalar, x0: Column, x: Column, x': Column, n: int, upper: bool, iteration: int)
    requires 0 <= iteration < n && IsTriangular(t, n, upper)
    requires SolveSwept(t, alpha, x0, x, n, FinishedFrom(!upper, iteration, n), FinishedTo(!upper, iteration, n))
    requires var row := SweepRow(!upper, iteration, n);
      && (forall k :: 0 <= k < n && k != row ==> x'(k) == x(k))
      && Mul(t(row, row), x'(row))
         == Sub(Mul(alpha, x(row)), Sum(Term(t, x, row), if upper then row + 1 else 0, if upper then n else row))
    ensures SolveSwept(t, alpha, x0, x', n, FinishedFrom(!upper, iteration + 1, n),
                       FinishedTo(!upper, iteration + 1, n))
  {
    var row := SweepRow(!upper, iteration, n);
    var lo, hi := FinishedFrom(!upper, iteration, n), FinishedTo(!upper, iteration, n);
    var begin, end := if upper then row + 1 else 0, if upper then n else row;
    forall k | lo <= k < hi
      ensures Applied(t, x', k, n) == Mul(alpha, x0(k))
    {
      AppliedCongruent(t, t, x', x, k, n);
    }
    SolveRowCompletes(t, x, x', row, upper, n, Mul(alpha, x(row)));
  }

  lemma {:induction false} SolveRowCompletes(
      t: Operator, x: Column, x': Column, row: int, upper: bool, n: int, r: Scalar)
    requires 0 <= row < n && IsTriangular(t, n, upper)
    requires forall k :: 0 <= k < n && k != row ==> x'(k) == x(k)
    requires Mul(t(row, row), x'(row))
             == Sub(r, Sum(Term(t, x, row), if upper then row + 1 else 0, if upper then n else row))
    ensures Applied(t, x', row, n) == r
  {
    var begin, end := if upper then row + 1 else 0, if upper then n else row;
    AppliedSplits(t, x', row, n);
    SumCongruent(Term(t, x', row), Term(t, x, row), begin, end);
    var zeroFrom, zeroTo := if upper then 0 else row + 1, if upper then row else n;
    forall k | zeroFrom <= k < zeroTo
      ensures Term(t, x', row)(k) == ZERO
    {
      ZeroTimes(x'(k));
    }
    SumVanishes(Term(t, x', row), zeroFrom, zeroTo);
    SolvedRow(Sum(Term(t, x, row), begin, end), r, t(row, row), x'(row));
  }
}
