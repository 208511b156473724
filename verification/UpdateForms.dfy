/**
 What the rank updates mean for the form of a matrix: the sesquilinear form of
 a Hermitian matrix and the bilinear form of a symmetric one, on any two columns.
 The laws name the operands' entries only.
 */
module UpdateForms {
  import opened Results
  import opened Scalars
  import opened Sums
  import opened Storage
  import opened Triangular
  import opened Operands
  import opened Lines
  import opened Forms
  import opened Updates
  import opened RankK

  /** The whole matrix that the stored triangle stands for. */
  ghost function Expanded(memory: Memory, matrix: View, triangle: Triangle, hermitian: bool): Grid
    requires Fits(matrix, |memory|) && IsUpdateForm(matrix.form) && IsSquare(matrix)
  {
    (r: int, c: int) => if InOrder(matrix, r, c) then SymmetricAt(memory, matrix, triangle, r, c, hermitian) else ZERO
  }

  // ----- Rank-one and rank-two updates --------------------------------------

  /** What a rank-two update adds to the form; a rank-one update adds the first product only. */
  ghost function Gained(
      hermitian: bool, rankTwo: bool, alpha: Scalar, w: Column, x: Column, y: Column, z: Column, n: int): Scalar {
    var first := Mul(alpha, Mul(Inner(hermitian, w, x, n), Inner(hermitian, y, z, n)));
    if rankTwo then
      Add(first, Mul(MaybeConjugate(hermitian, alpha), Mul(Inner(hermitian, w, y, n), Inner(hermitian, x, z, n))))
    else first
  }

  /** The term one vector kernel adds, as a matrix. */
  ghost function OuterGrid(hermitian: bool, alpha: Scalar, x: Column, y: Column): Grid {
    (r: int, c: int) => Outer(hermitian, alpha, x(r), y(c))
  }

  /** The form of the whole matrix after a rank-one or rank-two update, on any two columns. */
  lemma {:induction false} UpdatedForm(
      before: Memory, current: Memory, matrix: View, triangle: Triangle, hermitian: bool, rankTwo: bool, alpha: Scalar,
      x: View, y: View, w: Column, z: Column)
    requires |current| == |before| && Updatable(|before|, x, y, matrix)
    requires Updated(before, current, matrix, triangle, hermitian, rankTwo, alpha, x, y)
    ensures var n := Order(matrix);
      FormOf(hermitian, w, Expanded(current, matrix, triangle, hermitian), z, n)
      == Add(FormOf(hermitian, w, Expanded(before, matrix, triangle, hermitian), z, n),
             Gained(hermitian, rankTwo, alpha, w, Contents(before, x), Contents(before, y), z, n))
  {
    hide Mul, Add, SymmetricAt, Overlap, Offset, Span, Lowest, IsPlace, FormOf, Inner, At, MaybeConjugate;
    var n, u, v := Order(matrix), Contents(before, x), Contents(before, y);
    var a, a' := Expanded(before, matrix, triangle, hermitian), Expanded(current, matrix, triangle, hermitian);
    var first := OuterGrid(hermitian, alpha, u, v);
    var second := OuterGrid(hermitian, MaybeConjugate(hermitian, alpha), v, u);
    var update := (r: int, c: int) => if rankTwo then Add(first(r, c), second(r, c)) else first(r, c);
    forall r, c | 0 <= r < n && 0 <= c < n
      ensures a'(r, c) == Add(a(r, c), update(r, c))
    {
      assert InOrder(matrix, r, c);
      assert u(r) == VectorAt(before, x, r) && v(c) == VectorAt(before, y, c);
    }
    FormAdds(hermitian, w, a, update, a', z, n);
    FormOfOuter(hermitian, alpha, w, u, v, z, first, n);
    if rankTwo {
      FormOfOuter(hermitian, MaybeConjugate(hermitian, alpha), w, v, u, z, second, n);
      FormAdds(hermitian, w, first, second, update, z, n);
    } else {
      FormCongruent(hermitian, w, update, first, z, n);
    }
  }

  lemma OwnProduct(s: Scalar)
    ensures Mul(s, Conjugate(s)) == Scalar(SquaredModulus(s), 0.0)
  {
  }

  /** A rank-one update adds alpha times the squared modulus of the inner product
      to the Hermitian form, and alpha times its square to the symmetric one. */
  lemma RankOneQuadratic(
      before: Memory, current: Memory, matrix: View, triangle: Triangle, hermitian: bool, alpha: Scalar, x: View,
      z: Column)
    requires |current| == |before| && Updatable(|before|, x, x, matrix)
    requires Updated(before, current, matrix, triangle, hermitian, false, alpha, x, x)
    ensures var n, s := Order(matrix), Inner(hermitian, z, Contents(before, x), Order(matrix));
      FormOf(hermitian, z, Expanded(current, matrix, triangle, hermitian), z, n)
      == Add(FormOf(hermitian, z, Expanded(before, matrix, triangle, hermitian), z, n),
             Mul(alpha, if hermitian then Scalar(SquaredModulus(s), 0.0) else Mul(s, s)))
  {
    hide Mul, Add, Updated, Expanded, Contents, FormOf, Inner, SquaredModulus, Overlap, Fits;
    var s := Inner(hermitian, z, Contents(before, x), Order(matrix));
    UpdatedForm(before, current, matrix, triangle, hermitian, false, alpha, x, x, z, z);
    InnerReverses(hermitian, z, Contents(before, x), Order(matrix));
    OwnProduct(s);
  }

  // ----- Rank-k and rank-2k updates -----------------------------------------

  ghost function CrossTerm(conjugate: bool, l: Grid, r: Grid, w: Column, z: Column, n: int): int -> Scalar {
    k => Mul(Inner(conjugate, w, Across(l, k), n), Inner(conjugate, Across(r, k), z, n))
  }

  /** What the product of one operand with the transpose of the other adds to the
      form: column by column for `l r*`, and the inner product of the two images for `l* r`. */
  ghost function Crossed(
      conjugate: bool, transpose: Transpose, l: Grid, r: Grid, w: Column, z: Column, n: int, m: int): Scalar {
    if transpose == NoTranspose then Sum(CrossTerm(conjugate, l, r, w, z, n), 0, m)
    else Inner(conjugate, Image(l, w, n), Image(r, z, n), m)
  }

  ghost predicate RealEntries(memory: Memory, input: View)
    requires input.form.Full? && Fits(input, |memory|)
  {
    forall r, c :: InMatrix(input, r, c) ==> IsReal(MatrixAt(memory, input, r, c))
  }

  /** Column `k` of an operand after its transposition. */
  ghost function OperationColumn(memory: Memory, input: View, transpose: Transpose, k: int): Column
    requires input.form.Full? && Fits(input, |memory|)
  {
    r =>
      if 0 <= r < Rows(transpose, input) && 0 <= k < InnerExtent(transpose, input)
      then OperationAt(memory, input, transpose, r, k)
      else ZERO
  }

  ghost function OperationTerm(
      memory: Memory, hermitian: bool, transpose: Transpose, left: View, right: View, w: Column, z: Column, n: int)
    : int -> Scalar
    requires left.form.Full? && Fits(left, |memory|) && right.form.Full? && Fits(right, |memory|)
  {
    k => Mul(Inner(hermitian, w, OperationColumn(memory, left, transpose, k), n),
             Inner(hermitian, OperationColumn(memory, right, transpose, k), z, n))
  }

  lemma {:induction false} OperationsCross(
      memory: Memory, hermitian: bool, transpose: Transpose, left: View, right: View, w: Column, z: Column)
    requires left.form.Full? && Fits(left, |memory|) && right.form.Full? && Fits(right, |memory|)
    requires Rows(transpose, right) == Rows(transpose, left)
    requires InnerExtent(transpose, right) == InnerExtent(transpose, left)
    requires hermitian ==> transpose != Transposed
    requires !hermitian && transpose == ConjugateTransposed ==> RealEntries(memory, left) && RealEntries(memory, right)
    ensures var n, m := Rows(transpose, left), InnerExtent(transpose, left);
      Sum(OperationTerm(memory, hermitian, transpose, left, right, w, z, n), 0, m)
      == Crossed(hermitian, transpose, GridOf(memory, left), GridOf(memory, right), w, z, n, m)
  {
    hide Mul, Inner, Fits, MatrixAt, Image;
    var n, m := Rows(transpose, left), InnerExtent(transpose, left);
    var l, r := GridOf(memory, left), GridOf(memory, right);
    var f := OperationTerm(memory, hermitian, transpose, left, right, w, z, n);
    if transpose == NoTranspose {
      forall k | 0 <= k < m
        ensures f(k) == CrossTerm(hermitian, l, r, w, z, n)(k)
      {
        InnerCongruent(hermitian, w, w, OperationColumn(memory, left, transpose, k), Across(l, k), n);
        InnerCongruent(hermitian, OperationColumn(memory, right, transpose, k), Across(r, k), z, z, n);
      }
      SumCongruent(f, CrossTerm(hermitian, l, r, w, z, n), 0, m);
    } else {
      forall k | 0 <= k < m
        ensures f(k) == PairTerm(hermitian, Image(l, w, n), Image(r, z, n))(k)
      {
        RowImage(memory, hermitian, transpose, left, w, k);
        RowImage(memory, hermitian, transpose, right, z, k);
      }
      InnerIsSum(hermitian, Image(l, w, n), Image(r, z, n), m);
      SumCongruent(f, PairTerm(hermitian, Image(l, w, n), Image(r, z, n)), 0, m);
    }
  }

  lemma InnerIsSum(conjugate: bool, y: Column, x: Column, n: int)
    ensures Inner(conjugate, y, x, n) == Sum(PairTerm(conjugate, y, x), 0, n)
  {
  }

  /** Conjugated as the form asks, a transposed operand is the operand that is stored. */
  lemma {:induction false} OperationFactor(
      memory: Memory, hermitian: bool, transpose: Transpose, input: View, k: int, c: int)
    requires input.form.Full? && Fits(input, |memory|)
    requires transpose != NoTranspose && 0 <= k < InnerExtent(transpose, input) && 0 <= c < Rows(transpose, input)
    requires hermitian ==> transpose != Transposed
    requires !hermitian && transpose == ConjugateTransposed ==> RealEntries(memory, input)
    ensures MaybeConjugate(hermitian, OperationAt(memory, input, transpose, c, k)) == GridOf(memory, input)(k, c)
  {
    hide Fits, MatrixAt;
    assert InMatrix(input, k, c);
  }

  /** A row of the operand against a column. */
  lemma {:induction false} RowImage(
      memory: Memory, hermitian: bool, transpose: Transpose, input: View, z: Column, k: int)
    requires input.form.Full? && Fits(input, |memory|)
    requires transpose != NoTranspose && 0 <= k < InnerExtent(transpose, input)
    requires hermitian ==> transpose != Transposed
    requires !hermitian && transpose == ConjugateTransposed ==> RealEntries(memory, input)
    ensures var n, a := Rows(transpose, input), OperationColumn(memory, input, transpose, k);
      && Inner(hermitian, a, z, n) == Image(GridOf(memory, input), z, n)(k)
      && Inner(hermitian, z, a, n) == MaybeConjugate(hermitian, Image(GridOf(memory, input), z, n)(k))
  {
    hide Mul, Fits, MatrixAt, OperationAt, MaybeConjugate, GridOf, RealEntries;
    var n, a := Rows(transpose, input), OperationColumn(memory, input, transpose, k);
    var g := GridOf(memory, input);
    forall c | 0 <= c < n
      ensures PairTerm(hermitian, a, z)(c) == Term(g, z, k)(c)
    {
      OperationFactor(memory, hermitian, transpose, input, k, c);
    }
    SumCongruent(PairTerm(hermitian, a, z), Term(g, z, k), 0, n);
    InnerReverses(hermitian, a, z, n);
  }

  /** The matrix that one index of the innermost loop adds. */
  ghost function TermGrid(
      memory: Memory, hermitian: bool, rankTwo: bool, alpha: Scalar, transpose: Transpose, left: View,
      right: View): int -> Operator
    requires left.form.Full? && Fits(left, |memory|) && right.form.Full? && Fits(right, |memory|)
    requires Rows(transpose, right) == Rows(transpose, left)
    requires InnerExtent(transpose, right) == InnerExtent(transpose, left)
  {
    (k: int) => (r: int, c: int) =>
      if 0 <= r < Rows(transpose, left) && 0 <= c < Rows(transpose, left) && 0 <= k < InnerExtent(transpose, left)
      then RankKTerm(memory, hermitian, rankTwo, alpha, transpose, left, right, r, c, k)
      else ZERO
  }

  /** The form of one such matrix. */
  lemma {:induction false} TermForm(
      memory: Memory, hermitian: bool, rankTwo: bool, alpha: Scalar, transpose: Transpose, left: View, right: View,
      w: Column, z: Column, k: int)
    requires left.form.Full? && Fits(left, |memory|) && right.form.Full? && Fits(right, |memory|)
    requires Rows(transpose, right) == Rows(transpose, left)
    requires InnerExtent(transpose, right) == InnerExtent(transpose, left) && 0 <= k < InnerExtent(transpose, left)
    ensures var n, factor := Rows(transpose, left), if hermitian then alpha else ONE;
      FormOf(hermitian, w, TermGrid(memory, hermitian, rankTwo, alpha, transpose, left, right)(k), z, n)
      == Gained(hermitian, rankTwo, factor, w, OperationColumn(memory, left, transpose, k),
                OperationColumn(memory, right, transpose, k), z, n)
  {
    hide Mul, Add, Fits, FormOf, Inner, OperationAt, MaybeConjugate, Outer;
    var n, factor := Rows(transpose, left), if hermitian then alpha else ONE;
    var g := TermGrid(memory, hermitian, rankTwo, alpha, transpose, left, right)(k);
    var u, v := OperationColumn(memory, left, transpose, k), OperationColumn(memory, right, transpose, k);
    var first := OuterGrid(hermitian, factor, u, v);
    var second := OuterGrid(hermitian, MaybeConjugate(hermitian, factor), v, u);
    forall r, c | 0 <= r < n && 0 <= c < n
      ensures g(r, c) == if rankTwo then Add(first(r, c), second(r, c)) else first(r, c)
    {
    }
    OuterForm(hermitian, factor, w, u, v, z, n);
    if rankTwo {
      OuterForm(hermitian, MaybeConjugate(hermitian, factor), w, v, u, z, n);
      FormAdds(hermitian, w, first, second, g, z, n);
    } else {
      FormCongruent(hermitian, w, g, first, z, n);
    }
  }

  lemma OuterForm(hermitian: bool, alpha: Scalar, w: Column, u: Column, v: Column, z: Column, n: int)
    ensures FormOf(hermitian, w, OuterGrid(hermitian, alpha, u, v), z, n)
            == Mul(alpha, Mul(Inner(hermitian, w, u, n), Inner(hermitian, v, z, n)))
  {
    hide Mul, FormOf, Inner, MaybeConjugate;
    FormOfOuter(hermitian, alpha, w, u, v, z, OuterGrid(hermitian, alpha, u, v), n);
  }

  /** What a rank-k or rank-2k product adds to the form. */
  ghost function CrossedGain(
      hermitian: bool, rankTwo: bool, alpha: Scalar, transpose: Transpose, l: Grid, r: Grid, w: Column, z: Column,
      n: int, m: int): Scalar {
    var first := Mul(alpha, Crossed(hermitian, transpose, l, r, w, z, n, m));
    if rankTwo then
      Add(first, Mul(MaybeConjugate(hermitian, alpha), Crossed(hermitian, transpose, r, l, w, z, n, m)))
    else first
  }

  lemma {:induction false} TermsSum(
      memory: Memory, hermitian: bool, rankTwo: bool, alpha: Scalar, transpose: Transpose, left: View, right: View,
      w: Column, z: Column)
    requires left.form.Full? && Fits(left, |memory|) && right.form.Full? && Fits(right, |memory|)
    requires Rows(transpose, right) == Rows(transpose, left)
    requires InnerExtent(transpose, right) == InnerExtent(transpose, left)
    requires hermitian ==> transpose != Transposed
    requires !hermitian && transpose == ConjugateTransposed ==> RealEntries(memory, left) && RealEntries(memory, right)
    ensures var n, m := Rows(transpose, left), InnerExtent(transpose, left);
      Sum(FormTerm(hermitian, w, TermGrid(memory, hermitian, rankTwo, alpha, transpose, left, right), z, n), 0, m)
      == CrossedGain(hermitian, rankTwo, if hermitian then alpha else ONE, transpose, GridOf(memory, left),
                     GridOf(memory, right), w, z, n, m)
  {
    hide Mul, Add, Fits, FormOf, Inner, MaybeConjugate, TermGrid, OperationColumn, GridOf, Crossed, RealEntries;
    var n, m := Rows(transpose, left), InnerExtent(transpose, left);
    var factor := if hermitian then alpha else ONE;
    var g := TermGrid(memory, hermitian, rankTwo, alpha, transpose, left, right);
    var f := FormTerm(hermitian, w, g, z, n);
    var p := OperationTerm(memory, hermitian, transpose, left, right, w, z, n);
    var q := OperationTerm(memory, hermitian, transpose, right, left, w, z, n);
    var ap := (k: int) => Mul(factor, p(k));
    var aq := (k: int) => Mul(MaybeConjugate(hermitian, factor), q(k));
    forall k | 0 <= k < m
      ensures f(k) == if rankTwo then Add(ap(k), aq(k)) else ap(k)
    {
      TermForm(memory, hermitian, rankTwo, alpha, transpose, left, right, w, z, k);
    }
    SumScales(factor, p, ap, 0, m);
    SumScales(MaybeConjugate(hermitian, factor), q, aq, 0, m);
    OperationsCross(memory, hermitian, transpose, left, right, w, z);
    OperationsCross(memory, hermitian, transpose, right, left, w, z);
    if rankTwo {
      SumAdds(ap, aq, f, 0, m);
    } else {
      SumCongruent(f, ap, 0, m);
    }
  }

  lemma UnitGain(hermitian: bool, alpha: Scalar, p: Scalar, q: Scalar)
    ensures Mul(ONE, p) == p && MaybeConjugate(hermitian, ONE) == ONE
    ensures Mul(alpha, Add(p, q)) == Add(Mul(alpha, p), Mul(alpha, q))
  {
    AddDistributes(alpha, p, q);
  }

  /** The form of the product matrix, alpha included. */
  lemma {:induction false} ProductForm(
      memory: Memory, hermitian: bool, rankTwo: bool, alpha: Scalar, transpose: Transpose, left: View, right: View,
      w: Column, z: Column, product: Grid)
    requires left.form.Full? && Fits(left, |memory|) && right.form.Full? && Fits(right, |memory|)
    requires Rows(transpose, right) == Rows(transpose, left)
    requires InnerExtent(transpose, right) == InnerExtent(transpose, left) && 0 <= InnerExtent(transpose, left)
    requires hermitian ==> transpose != Transposed
    requires !hermitian && transpose == ConjugateTransposed ==> RealEntries(memory, left) && RealEntries(memory, right)
    requires forall r, c :: 0 <= r < Rows(transpose, left) && 0 <= c < Rows(transpose, left) ==>
      product(r, c) == ProductEntry(memory, hermitian, rankTwo, alpha, transpose, left, right, r, c)
    ensures FormOf(hermitian, w, product, z, Rows(transpose, left))
            == CrossedGain(hermitian, rankTwo, alpha, transpose, GridOf(memory, left), GridOf(memory, right), w, z,
                           Rows(transpose, left), InnerExtent(transpose, left))
  {
    hide Mul, Add, Fits, FormOf, Inner, MaybeConjugate, RankKTerm, GridOf, Crossed, RealEntries;
    var n, m := Rows(transpose, left), InnerExtent(transpose, left);
    var g := TermGrid(memory, hermitian, rankTwo, alpha, transpose, left, right);
    var total := Total(g, m);
    forall r, c | 0 <= r < n && 0 <= c < n
      ensures product(r, c) == if hermitian then total(r, c) else Mul(alpha, total(r, c))
    {
      SumCongruent(TermOf(memory, hermitian, rankTwo, alpha, transpose, left, right, r, c), EntryOf(g, r, c), 0, m);
    }
    FormOfTotal(hermitian, w, g, z, n, m);
    TermsSum(memory, hermitian, rankTwo, alpha, transpose, left, right, w, z);
    if hermitian {
      FormCongruent(hermitian, w, product, total, z, n);
    } else {
      FormScales(hermitian, w, alpha, total, product, z, n);
      var l, r := GridOf(memory, left), GridOf(memory, right);
      UnitGain(hermitian, alpha, Crossed(hermitian, transpose, l, r, w, z, n, m),
               Crossed(hermitian, transpose, r, l, w, z, n, m));
      UnitGain(hermitian, alpha, Crossed(hermitian, transpose, r, l, w, z, n, m), ZERO);
      assert MaybeConjugate(hermitian, alpha) == alpha by {
        SymmetricFactor(alpha);
      }
    }
  }

  lemma SymmetricFactor(alpha: Scalar)
    ensures MaybeConjugate(false, alpha) == alpha
  {
  }

  /** The form of the whole matrix after a rank-k or rank-2k update, on any two columns. */
  lemma {:induction false} RankKForm(
      before: Memory, current: Memory, triangle: Triangle, hermitian: bool, rankTwo: bool, alpha: Scalar, beta: Scalar,
      transpose: Transpose, left: View, right: View, output: View, w: Column, z: Column)
    requires |current| == |before| && Ready(|before|, transpose, left, right, output)
    requires RankKUpdated(before, current, triangle, hermitian, rankTwo, alpha, beta, transpose, left, right, output)
    requires hermitian ==> transpose != Transposed
    requires !hermitian && transpose == ConjugateTransposed ==> RealEntries(before, left) && RealEntries(before, right)
    ensures var n := Order(output);
      FormOf(hermitian, w, Expanded(current, output, triangle, hermitian), z, n)
      == Add(CrossedGain(hermitian, rankTwo, alpha, transpose, GridOf(before, left), GridOf(before, right), w, z, n,
                         InnerExtent(transpose, left)),
             Mul(beta, FormOf(hermitian, w, Expanded(before, output, triangle, hermitian), z, n)))
  {
    var n := Order(output);
    ExtentIsNatural(left, |before|, transpose);
    hide Mul, Add, Fits, FormOf, Overlap, SymmetricAt, ProductEntry, CrossedGain, GridOf, RealEntries, At, IsPlace;
    var a, a' := Expanded(before, output, triangle, hermitian), Expanded(current, output, triangle, hermitian);
    var product := (r: int, c: int) =>
      if InOrder(output, r, c)
      then ProductEntry(before, hermitian, rankTwo, alpha, transpose, left, right, r, c)
      else ZERO;
    var kept := (r: int, c: int) => Mul(beta, a(r, c));
    forall r, c | 0 <= r < n && 0 <= c < n
      ensures a'(r, c) == Add(product(r, c), kept(r, c))
    {
      assert InOrder(output, r, c);
    }
    ProductForm(before, hermitian, rankTwo, alpha, transpose, left, right, w, z, product);
    FormScales(hermitian, w, beta, a, kept, z, n);
    FormAdds(hermitian, w, product, kept, a', z, n);
  }

  lemma ExtentIsNatural(input: View, length: nat, transpose: Transpose)
    requires input.form.Full? && Fits(input, length)
    ensures 0 <= InnerExtent(transpose, input)
  {
  }
}
