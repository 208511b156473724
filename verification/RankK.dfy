/** Rank-k and rank-2k updates of a symmetric or Hermitian matrix that stores one triangle. */
module RankK {
  import opened Results
  import opened Scalars
  import opened Sums
  import opened Storage
  import opened Triangular
  import opened Operands
  import opened Updates

  function Rows(transpose: Transpose, input: View): int
    requires input.form.Full?
  {
    if transpose == NoTranspose then input.form.rows else input.form.columns
  }

  function InnerExtent(transpose: Transpose, input: View): int
    requires input.form.Full?
  {
    if transpose == NoTranspose then input.form.columns else input.form.rows
  }

  /** The checks of the rank-k kernels, in order. */
  function RankKStatus(
      backend: Backend, complex: bool, hermitian: bool, transpose: Transpose, left: View, right: View,
      output: View): Status
    requires left.form.Full? && right.form.Full? && output.form.Full?
  {
    if !hermitian && complex && transpose == ConjugateTransposed then Failed(InvalidArgument)
    else if hermitian && transpose == Transposed then Failed(InvalidArgument)
    else if ValidateContext(backend) != Ok then ValidateContext(backend)
    else if ValidateHostStorage(left) != Ok then ValidateHostStorage(left)
    else if ValidateHostStorage(right) != Ok then ValidateHostStorage(right)
    else if ValidateHostStorage(output) != Ok then ValidateHostStorage(output)
    else if right.form.layout != left.form.layout || output.form.layout != left.form.layout then Failed(InvalidArgument)
    else if Overlap(left, output) || Overlap(right, output) then Failed(InvalidArgument)
    else if left.form.rows != right.form.rows || left.form.columns != right.form.columns then Failed(Shape)
    else if output.form.rows != output.form.columns then Failed(Shape)
    else if output.form.rows != Rows(transpose, left) then Failed(Shape)
    else Ok
  }

  /** Operands that passed the checks. */
  ghost predicate Ready(length: nat, transpose: Transpose, left: View, right: View, output: View) {
    && left.form.Full? && right.form.Full? && output.form.Full?
    && Fits(left, length) && Fits(right, length) && Fits(output, length)
    && IsSquare(output) && Order(output) == Rows(transpose, left)
    && Rows(transpose, right) == Rows(transpose, left) && InnerExtent(transpose, right) == InnerExtent(transpose, left)
    && !Overlap(left, output) && !Overlap(right, output)
  }

  function OperationAt(memory: Memory, input: View, transpose: Transpose, row: int, column: int): Scalar
    requires input.form.Full? && Fits(input, |memory|)
    requires 0 <= row < Rows(transpose, input) && 0 <= column < InnerExtent(transpose, input)
  {
    var value := if transpose == NoTranspose then MatrixAt(memory, input, row, column)
                 else MatrixAt(memory, input, column, row);
    if transpose == ConjugateTransposed then Conjugate(value) else value
  }

  /** One term of an entry; the Hermitian kernels fold the factor alpha into it. */
  function RankKTerm(
      memory: Memory, hermitian: bool, rankTwo: bool, alpha: Scalar, transpose: Transpose, left: View, right: View,
      row: int, column: int, index: int): Scalar
    requires left.form.Full? && Fits(left, |memory|) && right.form.Full? && Fits(right, |memory|)
    requires Rows(transpose, right) == Rows(transpose, left)
    requires InnerExtent(transpose, right) == InnerExtent(transpose, left)
    requires 0 <= row < Rows(transpose, left) && 0 <= column < Rows(transpose, left)
    requires 0 <= index < InnerExtent(transpose, left)
  {
    var factor := if hermitian then alpha else ONE;
    var first := Outer(hermitian, factor, OperationAt(memory, left, transpose, row, index),
                       OperationAt(memory, right, transpose, column, index));
    if rankTwo then
      Add(first, Outer(hermitian, MaybeConjugate(hermitian, factor), OperationAt(memory, right, transpose, row, index),
                       OperationAt(memory, left, transpose, column, index)))
    else first
  }

  ghost function TermOf(
      memory: Memory, hermitian: bool, rankTwo: bool, alpha: Scalar, transpose: Transpose, left: View, right: View,
      row: int, column: int): int -> Scalar
    requires left.form.Full? && Fits(left, |memory|) && right.form.Full? && Fits(right, |memory|)
    requires Rows(transpose, right) == Rows(transpose, left)
    requires InnerExtent(transpose, right) == InnerExtent(transpose, left)
    requires 0 <= row < Rows(transpose, left) && 0 <= column < Rows(transpose, left)
  {
    k =>
      if 0 <= k < InnerExtent(transpose, left)
      then RankKTerm(memory, hermitian, rankTwo, alpha, transpose, left, right, row, column, k)
      else ZERO
  }

  /** Entry of the full mathematical product, alpha included. */
  ghost function ProductEntry(
      memory: Memory, hermitian: bool, rankTwo: bool, alpha: Scalar, transpose: Transpose, left: View, right: View,
      row: int, column: int): Scalar
    requires left.form.Full? && Fits(left, |memory|) && right.form.Full? && Fits(right, |memory|)
    requires Rows(transpose, right) == Rows(transpose, left)
    requires InnerExtent(transpose, right) == InnerExtent(transpose, left)
    requires 0 <= row < Rows(transpose, left) && 0 <= column < Rows(transpose, left)
  {
    var total := Sum(TermOf(memory, hermitian, rankTwo, alpha, transpose, left, right, row, column), 0,
                     InnerExtent(transpose, left));
    if hermitian then total else Mul(alpha, total)
  }

  /** The updated whole matrix. */
  ghost function WholeAfter(
      memory: Memory, triangle: Triangle, hermitian: bool, rankTwo: bool, alpha: Scalar, beta: Scalar,
      transpose: Transpose,
      left: View, right: View, output: View): Grid
    requires Ready(|memory|, transpose, left, right, output)
  {
    (r: int, c: int) =>
      if InOrder(output, r, c)
      then Add(ProductEntry(memory, hermitian, rankTwo, alpha, transpose, left, right, r, c),
               Mul(beta, SymmetricAt(memory, output, triangle, r, c, hermitian)))
      else ZERO
  }

  /** The value a kernel stores, with its shortcuts for zero factors. */
  function FinishEntry(
      hermitian: bool, row: int, column: int, alpha: Scalar, product: Scalar, beta: Scalar, destination: Scalar)
    : Scalar
  {
    if hermitian then
      var previous := Stored(true, row, column, destination);
      Stored(true, row, column, Add(product, if beta == ZERO then ZERO else Mul(beta, previous)))
    else
      Add(Mul(alpha, product), if beta == ZERO then ZERO else Mul(beta, destination))
  }

  ghost function StoredAfter(
      memory: Memory, triangle: Triangle, hermitian: bool, rankTwo: bool, alpha: Scalar, beta: Scalar,
      transpose: Transpose,
      left: View, right: View, output: View): Grid
    requires Ready(|memory|, transpose, left, right, output)
  {
    (r: int, c: int) =>
      if InOrder(output, r, c)
      then FinishEntry(hermitian, r, c, alpha,
                       if alpha == ZERO then ZERO
                       else Sum(TermOf(memory, hermitian, rankTwo, alpha, transpose, left, right, r, c), 0,
                                InnerExtent(transpose, left)),
                       beta, At(memory, output, triangle, r, c))
      else ZERO
  }

  // ----- The update is self-adjoint -----------------------------------------

  lemma {:induction false} TermIsSelfAdjoint(
      memory: Memory, hermitian: bool, rankTwo: bool, alpha: Scalar, transpose: Transpose, left: View, right: View,
      r: int, c: int, k: int)
    requires left.form.Full? && Fits(left, |memory|) && right.form.Full? && Fits(right, |memory|)
    requires Rows(transpose, right) == Rows(transpose, left)
    requires InnerExtent(transpose, right) == InnerExtent(transpose, left)
    requires 0 <= r < Rows(transpose, left) && 0 <= c < Rows(transpose, left) && 0 <= k < InnerExtent(transpose, left)
    requires !rankTwo ==> left == right && (hermitian ==> IsReal(alpha))
    ensures RankKTerm(memory, hermitian, rankTwo, alpha, transpose, left, right, c, r, k)
            == MaybeConjugate(hermitian, RankKTerm(memory, hermitian, rankTwo, alpha, transpose, left, right, r, c, k))
  {
    hide Mul, Outer, At, MatrixAt;
    var factor := if hermitian then alpha else ONE;
    var lr, rc := OperationAt(memory, left, transpose, r, k), OperationAt(memory, right, transpose, c, k);
    OuterAdjoint(hermitian, factor, lr, rc);
    if rankTwo {
      var rr, lc := OperationAt(memory, right, transpose, r, k), OperationAt(memory, left, transpose, c, k);
      OuterAdjoint(hermitian, MaybeConjugate(hermitian, factor), rr, lc);
      ConjugateAdd(hermitian, Outer(hermitian, factor, lr, rc),
                   Outer(hermitian, MaybeConjugate(hermitian, factor), rr, lc));
      ConjugateAdd(hermitian, factor, factor);
    }
  }

  lemma {:induction false} ProductIsSelfAdjoint(
      memory: Memory, hermitian: bool, rankTwo: bool, alpha: Scalar, transpose: Transpose, left: View, right: View,
      r: int, c: int)
    requires left.form.Full? && Fits(left, |memory|) && right.form.Full? && Fits(right, |memory|)
    requires Rows(transpose, right) == Rows(transpose, left)
    requires InnerExtent(transpose, right) == InnerExtent(transpose, left)
    requires 0 <= r < Rows(transpose, left) && 0 <= c < Rows(transpose, left)
    requires !rankTwo ==> left == right && (hermitian ==> IsReal(alpha))
    ensures ProductEntry(memory, hermitian, rankTwo, alpha, transpose, left, right, c, r)
            == MaybeConjugate(hermitian, ProductEntry(memory, hermitian, rankTwo, alpha, transpose, left, right, r, c))
  {
    hide Mul, RankKTerm, Fits;
    var f := TermOf(memory, hermitian, rankTwo, alpha, transpose, left, right, r, c);
    var g := TermOf(memory, hermitian, rankTwo, alpha, transpose, left, right, c, r);
    var n := InnerExtent(transpose, left);
    forall k | 0 <= k < n
      ensures g(k) == MaybeConjugate(hermitian, f(k))
    {
      TermIsSelfAdjoint(memory, hermitian, rankTwo, alpha, transpose, left, right, r, c, k);
    }
    if hermitian {
      SumConjugates(f, g, 0, n);
    } else {
      SumCongruent(g, f, 0, n);
    }
  }

  lemma ScaledAdjoint(hermitian: bool, beta: Scalar, a: Scalar)
    requires hermitian ==> IsReal(beta)
    ensures Mul(beta, MaybeConjugate(hermitian, a)) == MaybeConjugate(hermitian, Mul(beta, a))
  {
  }

  lemma SymmetricAtAdjoint(memory: Memory, matrix: View, triangle: Triangle, r: int, c: int, hermitian: bool)
    requires Fits(matrix, |memory|) && IsUpdateForm(matrix.form) && IsSquare(matrix) && InOrder(matrix, r, c)
    ensures SymmetricAt(memory, matrix, triangle, c, r, hermitian)
            == MaybeConjugate(hermitian, SymmetricAt(memory, matrix, triangle, r, c, hermitian))
  {
    hide Fits, At;
  }

  lemma {:induction false} WholeAfterIsSelfAdjoint(
      memory: Memory, triangle: Triangle, hermitian: bool, rankTwo: bool, alpha: Scalar, beta: Scalar,
      transpose: Transpose,
      left: View, right: View, output: View)
    requires Ready(|memory|, transpose, left, right, output)
    requires !rankTwo ==> left == right && (hermitian ==> IsReal(alpha))
    requires hermitian ==> IsReal(beta)
    ensures IsSelfAdjoint(WholeAfter(memory, triangle, hermitian, rankTwo, alpha, beta, transpose, left, right, output),
                          Order(output), hermitian)
  {
    hide Mul, ProductEntry, SymmetricAt, Fits, Overlap;
    var whole := WholeAfter(memory, triangle, hermitian, rankTwo, alpha, beta, transpose, left, right, output);
    forall r, c | InOrder(output, r, c)
      ensures whole(c, r) == MaybeConjugate(hermitian, whole(r, c))
    {
      ProductIsSelfAdjoint(memory, hermitian, rankTwo, alpha, transpose, left, right, r, c);
      SymmetricAtAdjoint(memory, output, triangle, r, c, hermitian);
      ScaledAdjoint(hermitian, beta, SymmetricAt(memory, output, triangle, r, c, hermitian));
      ConjugateAdd(hermitian, ProductEntry(memory, hermitian, rankTwo, alpha, transpose, left, right, r, c),
                   Mul(beta, SymmetricAt(memory, output, triangle, r, c, hermitian)));
    }
  }

  lemma ZeroOuter(x: Scalar, y: Scalar)
    ensures Outer(true, ZERO, x, y) == ZERO && MaybeConjugate(true, ZERO) == ZERO && Add(ZERO, ZERO) == ZERO
  {
  }

  lemma ZeroAlphaTerm(
      memory: Memory, rankTwo: bool, transpose: Transpose, left: View, right: View, r: int, c: int, k: int)
    requires left.form.Full? && Fits(left, |memory|) && right.form.Full? && Fits(right, |memory|)
    requires Rows(transpose, right) == Rows(transpose, left)
    requires InnerExtent(transpose, right) == InnerExtent(transpose, left)
    requires 0 <= r < Rows(transpose, left) && 0 <= c < Rows(transpose, left) && 0 <= k < InnerExtent(transpose, left)
    ensures RankKTerm(memory, true, rankTwo, ZERO, transpose, left, right, r, c, k) == ZERO
  {
    hide Fits, Outer, OperationAt, Mul, MaybeConjugate, Add;
    ZeroOuter(OperationAt(memory, left, transpose, r, k), OperationAt(memory, right, transpose, c, k));
    ZeroOuter(OperationAt(memory, right, transpose, r, k), OperationAt(memory, left, transpose, c, k));
  }

  lemma {:induction false} ZeroAlphaProduct(
      memory: Memory, hermitian: bool, rankTwo: bool, transpose: Transpose, left: View, right: View, r: int, c: int)
    requires left.form.Full? && Fits(left, |memory|) && right.form.Full? && Fits(right, |memory|)
    requires Rows(transpose, right) == Rows(transpose, left)
    requires InnerExtent(transpose, right) == InnerExtent(transpose, left)
    requires 0 <= r < Rows(transpose, left) && 0 <= c < Rows(transpose, left)
    ensures ProductEntry(memory, hermitian, rankTwo, ZERO, transpose, left, right, r, c) == ZERO
  {
    hide Fits, RankKTerm, Mul, Add;
    var f := TermOf(memory, hermitian, rankTwo, ZERO, transpose, left, right, r, c);
    var n := InnerExtent(transpose, left);
    if hermitian {
      forall k | 0 <= k < n
        ensures f(k) == ZERO
      {
        ZeroAlphaTerm(memory, rankTwo, transpose, left, right, r, c, k);
      }
      SumVanishes(f, 0, n);
    } else {
      ZeroTimes(Sum(f, 0, n));
    }
  }

  lemma FinishMatches(
      hermitian: bool, diagonal: bool, row: int, column: int, alpha: Scalar, product: Scalar, beta: Scalar,
      destination: Scalar)
    requires diagonal == (row == column)
    requires hermitian ==> IsReal(beta) && (diagonal ==> IsReal(product))
    ensures FinishEntry(hermitian, row, column, alpha, product, beta, destination)
            == Add(if hermitian then product
                   else Mul(alpha, product), Mul(beta, Stored(hermitian, row, column, destination)))
  {
    ZeroTimes(Stored(hermitian, row, column, destination));
    ZeroTimes(destination);
  }

  /** Each stored entry is the one the whole updated matrix asks for. */
  lemma {:induction false} StoredAfterMatches(
      memory: Memory, triangle: Triangle, hermitian: bool, rankTwo: bool, alpha: Scalar, beta: Scalar,
      transpose: Transpose,
      left: View, right: View, output: View, r: int, c: int)
    requires Ready(|memory|, transpose, left, right, output) && InOrder(output, r, c) && InTriangle(triangle, r, c)
    requires !rankTwo ==> left == right && (hermitian ==> IsReal(alpha))
    requires hermitian ==> IsReal(beta)
    ensures StoredAfter(memory, triangle, hermitian, rankTwo, alpha, beta, transpose, left, right, output)(r, c)
            == WholeAfter(memory, triangle, hermitian, rankTwo, alpha, beta, transpose, left, right, output)(r, c)
  {
    hide Mul, Fits, Overlap, RankKTerm, At, FinishEntry;
    var product := if alpha == ZERO then ZERO
      else
        Sum(TermOf(memory, hermitian, rankTwo, alpha, transpose, left, right, r, c), 0, InnerExtent(transpose, left));
    if alpha == ZERO {
      ZeroAlphaProduct(memory, hermitian, rankTwo, transpose, left, right, r, c);
      ZeroTimes(product);
    }
    ProductIsSelfAdjoint(memory, hermitian, rankTwo, alpha, transpose, left, right, r, c);
    FinishMatches(hermitian, r == c, r, c, alpha, product, beta, At(memory, output, triangle, r, c));
  }

  // ----- The kernels --------------------------------------------------------

  lemma TermUndisturbed(
      before: Memory, current: Memory, triangle: Triangle, hermitian: bool, rankTwo: bool, alpha: Scalar,
      transpose: Transpose,
      left: View, right: View, output: View, row: int, column: int, index: int)
    requires |current| == |before| && Ready(|before|, transpose, left, right, output)
    requires Framed(before, current, output, triangle)
    requires 0 <= row < Rows(transpose, left) && 0 <= column < Rows(transpose, left)
    requires 0 <= index < InnerExtent(transpose, left)
    ensures RankKTerm(current, hermitian, rankTwo, alpha, transpose, left, right, row, column, index)
            == RankKTerm(before, hermitian, rankTwo, alpha, transpose, left, right, row, column, index)
  {
    hide Outer, Overlap, Offset, Span, Lowest, IsPlace;
    forall input | input == left || input == right
      ensures OperationAt(current, input, transpose, row, index) == OperationAt(before, input, transpose, row, index)
      ensures OperationAt(current, input, transpose, column, index)
              == OperationAt(before, input, transpose, column, index)
    {
      if transpose == NoTranspose {
        EntryUndisturbed(before, current, input, Upper, output, triangle, row, index);
        EntryUndisturbed(before, current, input, Upper, output, triangle, column, index);
      } else {
        EntryUndisturbed(before, current, input, Upper, output, triangle, index, row);
        EntryUndisturbed(before, current, input, Upper, output, triangle, index, column);
      }
    }
  }

  /** The innermost loop, skipped when alpha is zero. */
  method ComputeProduct(
      memory: array<Scalar>, triangle: Triangle, hermitian: bool, rankTwo: bool, alpha: Scalar, transpose: Transpose,
      left: View, right: View, output: View, row: int, column: int, ghost before: Memory)
    returns (product: Scalar)
    requires Ready(memory.Length, transpose, left, right, output) && InOrder(output, row, column)
    requires Framed(before, memory[..], output, triangle)
    ensures product
            == if alpha == ZERO then ZERO
               else Sum(TermOf(before, hermitian, rankTwo, alpha, transpose, left, right, row, column), 0,
                        InnerExtent(transpose, left))
  {
    hide Add, Mul, RankKTerm, Overlap, Offset, Span, Lowest, IsPlace;
    product := ZERO;
    if alpha != ZERO {
      ghost var f := TermOf(before, hermitian, rankTwo, alpha, transpose, left, right, row, column);
      for index := 0 to InnerExtent(transpose, left)
        invariant product == Sum(f, 0, index)
      {
        TermUndisturbed(before, memory[..], triangle, hermitian, rankTwo, alpha, transpose, left, right, output, row,
                        column, index);
        product :=
          Add(product, RankKTerm(memory[..], hermitian, rankTwo, alpha, transpose, left, right, row, column, index));
      }
    }
  }

  /** What a rank-k kernel leaves behind, entry by entry of the whole matrix. */
  ghost predicate RankKUpdated(
      before: Memory, current: Memory, triangle: Triangle, hermitian: bool, rankTwo: bool, alpha: Scalar, beta: Scalar,
      transpose: Transpose, left: View, right: View, output: View)
    requires |current| == |before| && Ready(|before|, transpose, left, right, output)
  {
    && Framed(before, current, output, triangle)
    && (forall r, c :: IsSlot(output.form, triangle, r, c) && !InTriangle(triangle, r, c) ==>
          At(current, output, triangle, r, c) == At(before, output, triangle, r, c))
    && (forall r, c :: InOrder(output, r, c) ==>
          SymmetricAt(current, output, triangle, r, c, hermitian)
          == Add(ProductEntry(before, hermitian, rankTwo, alpha, transpose, left, right, r, c),
                 Mul(beta, SymmetricAt(before, output, triangle, r, c, hermitian))))
    && (hermitian ==> forall k :: 0 <= k < Order(output) ==> IsReal(At(current, output, triangle, k, k)))
  }

  lemma {:induction false} RewrittenIsRankK(
      before: Memory, current: Memory, triangle: Triangle, hermitian: bool, rankTwo: bool, alpha: Scalar, beta: Scalar,
      transpose: Transpose, left: View, right: View, output: View)
    requires |current| == |before| && Ready(|before|, transpose, left, right, output)
    requires !rankTwo ==> left == right && (hermitian ==> IsReal(alpha))
    requires hermitian ==> IsReal(beta)
    requires TriangleRewritten(before, current, output, triangle,
                               StoredAfter(before, triangle, hermitian, rankTwo, alpha, beta, transpose, left, right,
                                           output),
                               Order(output), 0)
    ensures RankKUpdated(before, current, triangle, hermitian, rankTwo, alpha, beta, transpose, left, right, output)
  {
    hide Add, Mul, ProductEntry, TermOf, Offset, Span, Lowest, IsPlace, Overlap, SymmetricAt, At;
    var whole := WholeAfter(before, triangle, hermitian, rankTwo, alpha, beta, transpose, left, right, output);
    var value := StoredAfter(before, triangle, hermitian, rankTwo, alpha, beta, transpose, left, right, output);
    WholeAfterIsSelfAdjoint(before, triangle, hermitian, rankTwo, alpha, beta, transpose, left, right, output);
    forall r, c | InOrder(output, r, c) && InTriangle(triangle, r, c)
      ensures value(r, c) == whole(r, c)
    {
      StoredAfterMatches(before, triangle, hermitian, rankTwo, alpha, beta, transpose, left, right, output, r, c);
    }
    forall r, c | InOrder(output, r, c)
      ensures SymmetricAt(current, output, triangle, r, c, hermitian) == whole(r, c)
    {
      ExpandedAfter(before, current, output, triangle, hermitian, value, whole, r, c);
    }
    forall k | 0 <= k < Order(output) && hermitian
      ensures IsReal(At(current, output, triangle, k, k))
    {
      assert IsSlot(output.form, triangle, k, k) && InTriangle(triangle, k, k);
      assert At(current, output, triangle, k, k) == value(k, k);
    }
  }

  /** Syrk, Syr2k, Herk and Her2k: only the stored triangle is rewritten, and the
      whole matrix becomes the full product plus beta times itself. */
  method RankKUpdate(
      memory: array<Scalar>, backend: Backend, complex: bool, triangle: Triangle, transpose: Transpose, hermitian: bool,
      rankTwo: bool, alpha: Scalar, left: View, right: View, beta: Scalar, output: View)
    returns (status: Status)
    requires left.form.Full? && right.form.Full? && output.form.Full?
    requires Fits(left, memory.Length) && Fits(right, memory.Length) && Fits(output, memory.Length)
    requires !rankTwo ==> left == right && (hermitian ==> IsReal(alpha))
    requires hermitian ==> IsReal(beta)
    modifies memory
    ensures status == RankKStatus(backend, complex, hermitian, transpose, left, right, output)
    ensures status != Ok ==> memory[..] == old(memory[..])
    ensures status == Ok ==>
      && Ready(memory.Length, transpose, left, right, output)
      && RankKUpdated(old(memory[..]), memory[..], triangle, hermitian, rankTwo, alpha, beta, transpose, left, right,
                      output)
  {
    hide Add, Mul, TermOf, ProductEntry, Offset, Span, Lowest, IsPlace, Overlap, SymmetricAt, RankKUpdated, FinishEntry;
    status := RankKStatus(backend, complex, hermitian, transpose, left, right, output);
    if status != Ok {
      return;
    }
    ghost var before := memory[..];
    ghost var value := StoredAfter(before, triangle, hermitian, rankTwo, alpha, beta, transpose, left, right, output);
    var order := Order(output);
    for row := 0 to order
      invariant TriangleRewritten(before, memory[..], output, triangle, value, row, 0)
    {
      var begin := if triangle == Upper then row else 0;
      var end := if triangle == Upper then order else row + 1;
      for column := begin to end
        invariant TriangleRewritten(before, memory[..], output, triangle, value, row, column)
      {
        var product := ComputeProduct(memory, triangle, hermitian, rankTwo, alpha, transpose, left, right, output, row,
                                      column, before);
        RewriteEntry(before, memory[..], output, triangle, value, row, column);
        ghost var current := memory[..];
        var place := Place(output, triangle, row, column);
        memory[place] := FinishEntry(hermitian, row, column, alpha, product, beta, memory[place]);
        assert memory[..] == current[place := value(row, column)];
      }
      NextRow(before, memory[..], output, triangle, value, row);
    }
    RewrittenIsRankK(before, memory[..], triangle, hermitian, rankTwo, alpha, beta, transpose, left, right, output);
  }
}
