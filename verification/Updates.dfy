/**
 Updates of a symmetric or Hermitian matrix that stores one triangle: the
 rank-one and rank-two kernels on full and packed targets.
 */
module Updates {
  import opened Results
  import opened Scalars
  import opened Storage
  import opened Operands

  // ----- Expanded matrices --------------------------------------------------

  predicate InTriangle(triangle: Triangle, row: int, column: int) {
    if triangle == Upper then row <= column else column <= row
  }

  predicate IsUpdateForm(form: Form) {
    form.Full? || form.Packed?
  }

  /** Entry of the whole matrix that one stored triangle stands for. */
  function SymmetricAt(
      memory: Memory, matrix: View, triangle: Triangle, row: int, column: int, hermitian: bool): Scalar
    requires Fits(matrix, |memory|) && IsUpdateForm(matrix.form) && IsSquare(matrix) && InOrder(matrix, row, column)
  {
    var reflected := (triangle == Upper && row > column) || (triangle == Lower && row < column);
    var value := if reflected then At(memory, matrix, triangle, column, row)
                 else At(memory, matrix, triangle, row, column);
    if row == column && hermitian then RealPart(value)
    else if hermitian && reflected then Conjugate(value)
    else value
  }

  /** The mathematical counterpart of reflecting: symmetric, or equal to its own conjugate transpose. */
  ghost predicate IsSelfAdjoint(g: Grid, order: int, hermitian: bool) {
    forall r, c :: 0 <= r < order && 0 <= c < order ==> g(c, r) == if hermitian then Conjugate(g(r, c)) else g(r, c)
  }

  // ----- Rewriting one triangle ---------------------------------------------

  /** Row-by-row order of the kernels' two loops. */
  predicate Before(r: int, c: int, row: int, column: int) {
    r < row || (r == row && c < column)
  }

  /** Triangle entries before the loop position hold `value`; nothing else has changed. */
  ghost predicate TriangleRewritten(
      before: Memory, current: Memory, matrix: View, triangle: Triangle, value: Grid, row: int, column: int)
    requires Fits(matrix, |before|)
  {
    && Framed(before, current, matrix, triangle)
    && forall r, c :: IsSlot(matrix.form, triangle, r, c) ==>
         At(current, matrix, triangle, r, c)
         == if InTriangle(triangle, r, c) && Before(r, c, row, column) then value(r, c)
            else At(before, matrix, triangle, r, c)
  }

  lemma RewriteEntry(
      before: Memory, current: Memory, matrix: View, triangle: Triangle, value: Grid, row: int, column: int)
    requires Fits(matrix, |before|) && IsSlot(matrix.form, triangle, row, column) && InTriangle(triangle, row, column)
    requires TriangleRewritten(before, current, matrix, triangle, value, row, column)
    ensures 0 <= Place(matrix, triangle, row, column) < |current|
    ensures TriangleRewritten(before, current[Place(matrix, triangle, row, column) := value(row, column)],
                              matrix, triangle, value, row, column + 1)
    ensures At(current, matrix, triangle, row, column) == At(before, matrix, triangle, row, column)
  {
    hide Offset, Span, Lowest, IsPlace;
    WriteFramed(before, current, matrix, triangle, row, column, value(row, column));
    var after := current[Place(matrix, triangle, row, column) := value(row, column)];
    forall r, c | IsSlot(matrix.form, triangle, r, c)
      ensures At(after, matrix, triangle, r, c)
              == if InTriangle(triangle, r, c) && Before(r, c, row, column + 1) then value(r, c)
                 else At(before, matrix, triangle, r, c)
    {
      WriteEntry(current, matrix, triangle, row, column, value(row, column), r, c);
    }
  }

  /** Loop bounds of one row of the triangle. */
  function RowBegin(triangle: Triangle, row: int): int {
    if triangle == Upper then row else 0
  }

  function RowEnd(triangle: Triangle, row: int, order: int): int {
    if triangle == Upper then order else row + 1
  }

  lemma NextRow(
      before: Memory, current: Memory, matrix: View, triangle: Triangle, value: Grid, row: int)
    requires Fits(matrix, |before|) && IsUpdateForm(matrix.form) && IsSquare(matrix) && 0 <= row < Order(matrix)
    requires TriangleRewritten(before, current, matrix, triangle, value, row, RowEnd(triangle, row, Order(matrix)))
    ensures row + 1 < Order(matrix) ==>
              TriangleRewritten(before, current, matrix, triangle, value, row + 1, RowBegin(triangle, row + 1))
    ensures TriangleRewritten(before, current, matrix, triangle, value, row + 1, 0)
  {
    hide Offset, Span, Lowest, IsPlace, At;
  }

  /** After both loops the whole matrix is the one whose stored triangle holds `value`. */
  lemma {:induction false} ExpandedAfter(
      before: Memory, current: Memory, matrix: View, triangle: Triangle, hermitian: bool, value: Grid, whole: Grid,
      row: int, column: int)
    requires Fits(matrix, |before|) && IsUpdateForm(matrix.form) && IsSquare(matrix) && InOrder(matrix, row, column)
    requires TriangleRewritten(before, current, matrix, triangle, value, Order(matrix), 0)
    requires IsSelfAdjoint(whole, Order(matrix), hermitian)
    requires forall r, c :: InOrder(matrix, r, c) && InTriangle(triangle, r, c) ==>
      value(r, c) == whole(r, c) || (hermitian && r == c && RealPart(value(r, c)) == whole(r, c))
    ensures SymmetricAt(current, matrix, triangle, row, column, hermitian) == whole(row, column)
  {
    hide Offset, Span, Lowest, IsPlace;
    var (r, c) := if InTriangle(triangle, row, column) then (row, column) else (column, row);
    assert InOrder(matrix, r, c) && InTriangle(triangle, r, c);
    assert At(current, matrix, triangle, r, c) == value(r, c);
    assert whole(c, r) == if hermitian then Conjugate(whole(r, c)) else whole(r, c);
  }

  // ----- Rank-one and rank-two kernels --------------------------------------

  /** The checks of the rank updates, in order; `y` is `x` for rank one. */
  function RankUpdateStatus(backend: Backend, x: View, y: View, matrix: View): Status
    requires x.form.Vector? && y.form.Vector? && IsUpdateForm(matrix.form)
  {
    if !IsSquare(matrix) then Failed(Shape)
    else if ValidateContext(backend) != Ok then ValidateContext(backend)
    else if ValidateHostStorage(x) != Ok then ValidateHostStorage(x)
    else if ValidateHostStorage(y) != Ok then ValidateHostStorage(y)
    else if ValidateHostStorage(matrix) != Ok then ValidateHostStorage(matrix)
    else if Overlap(x, matrix) || Overlap(y, matrix) then Failed(InvalidArgument)
    else if x.form.size != Order(matrix) || y.form.size != Order(matrix) then Failed(Shape)
    else Ok
  }

  /** alpha times the entry of x times the (conjugate) transpose of y. */
  function Outer(hermitian: bool, alpha: Scalar, x: Scalar, y: Scalar): Scalar {
    Mul(Mul(alpha, x), MaybeConjugate(hermitian, y))
  }

  /** The diagonal of a Hermitian matrix is stored without imaginary part. */
  function Stored(hermitian: bool, row: int, column: int, value: Scalar): Scalar {
    if hermitian && row == column then RealPart(value) else value
  }

  /** Entry of the mathematical rank-one or rank-two update. */
  ghost function UpdateEntry(
      memory: Memory, hermitian: bool, rankTwo: bool, alpha: Scalar, x: View, y: View, row: int, column: int): Scalar
    requires x.form.Vector? && Fits(x, |memory|) && y.form.Vector? && Fits(y, |memory|)
    requires x.form.size == y.form.size && 0 <= row < x.form.size && 0 <= column < x.form.size
  {
    var first := Outer(hermitian, alpha, VectorAt(memory, x, row), VectorAt(memory, y, column));
    if rankTwo then
      Add(first, Outer(hermitian, MaybeConjugate(hermitian, alpha), VectorAt(memory, y, row),
                       VectorAt(memory, x, column)))
    else first
  }

  /** The updated whole matrix. */
  ghost function UpdatedWhole(
      memory: Memory, matrix: View, triangle: Triangle, hermitian: bool, rankTwo: bool, alpha: Scalar, x: View,
      y: View): Grid
    requires Fits(matrix, |memory|) && IsUpdateForm(matrix.form) && IsSquare(matrix)
    requires x.form.Vector? && Fits(x, |memory|) && y.form.Vector? && Fits(y, |memory|)
    requires x.form.size == y.form.size == Order(matrix)
  {
    (r: int, c: int) =>
      if InOrder(matrix, r, c)
      then Add(SymmetricAt(memory, matrix, triangle, r, c, hermitian),
               UpdateEntry(memory, hermitian, rankTwo, alpha, x, y, r, c))
      else ZERO
  }

  /** What the kernels store in a triangle entry. */
  ghost function UpdatedStored(
      memory: Memory, matrix: View, triangle: Triangle, hermitian: bool, rankTwo: bool, alpha: Scalar, x: View,
      y: View): Grid
    requires Fits(matrix, |memory|) && IsUpdateForm(matrix.form) && IsSquare(matrix)
    requires x.form.Vector? && Fits(x, |memory|) && y.form.Vector? && Fits(y, |memory|)
    requires x.form.size == y.form.size == Order(matrix)
  {
    (r: int, c: int) =>
      if InOrder(matrix, r, c) && InTriangle(triangle, r, c)
      then Stored(hermitian, r, c,
                  Add(At(memory, matrix, triangle, r, c), UpdateEntry(memory, hermitian, rankTwo, alpha, x, y, r, c)))
      else ZERO
  }

  lemma OuterAdjoint(hermitian: bool, alpha: Scalar, x: Scalar, y: Scalar)
    ensures MaybeConjugate(hermitian, Outer(hermitian, alpha, x, y))
            == Outer(hermitian, MaybeConjugate(hermitian, alpha), y, x)
  {
    if hermitian {
      ConjugateMul(Mul(alpha, x), Conjugate(y));
      ConjugateMul(alpha, x);
      MulAssociates(Conjugate(alpha), Conjugate(x), y);
      MulCommutes(Conjugate(x), y);
      MulAssociates(Conjugate(alpha), y, Conjugate(x));
      assert Conjugate(Conjugate(y)) == y;
    } else {
      MulAssociates(alpha, x, y);
      MulCommutes(x, y);
      MulAssociates(alpha, y, x);
    }
  }

  lemma ConjugateAdd(hermitian: bool, a: Scalar, b: Scalar)
    ensures MaybeConjugate(hermitian, Add(a, b)) == Add(MaybeConjugate(hermitian, a), MaybeConjugate(hermitian, b))
    ensures MaybeConjugate(hermitian, MaybeConjugate(hermitian, a)) == a
  {
  }

  /** Reflecting an entry of the update conjugates it. */
  lemma {:induction false} UpdateIsSelfAdjoint(
      memory: Memory, hermitian: bool, rankTwo: bool, alpha: Scalar, x: View, y: View, r: int, c: int)
    requires x.form.Vector? && Fits(x, |memory|) && y.form.Vector? && Fits(y, |memory|)
    requires x.form.size == y.form.size && 0 <= r < x.form.size && 0 <= c < x.form.size
    requires !rankTwo ==> x == y && (hermitian ==> IsReal(alpha))
    ensures UpdateEntry(memory, hermitian, rankTwo, alpha, x, y, c, r)
            == MaybeConjugate(hermitian, UpdateEntry(memory, hermitian, rankTwo, alpha, x, y, r, c))
  {
    hide Mul, Outer, At;
    var xr, yc := VectorAt(memory, x, r), VectorAt(memory, y, c);
    var yr, xc := VectorAt(memory, y, r), VectorAt(memory, x, c);
    OuterAdjoint(hermitian, alpha, xr, yc);
    if rankTwo {
      OuterAdjoint(hermitian, MaybeConjugate(hermitian, alpha), yr, xc);
      ConjugateAdd(hermitian, Outer(hermitian, alpha, xr, yc),
                   Outer(hermitian, MaybeConjugate(hermitian, alpha), yr, xc));
      ConjugateAdd(hermitian, alpha, alpha);
    }
  }

  lemma {:induction false} WholeIsSelfAdjoint(
      memory: Memory, matrix: View, triangle: Triangle, hermitian: bool, rankTwo: bool, alpha: Scalar, x: View, y: View)
    requires Fits(matrix, |memory|) && IsUpdateForm(matrix.form) && IsSquare(matrix)
    requires x.form.Vector? && Fits(x, |memory|) && y.form.Vector? && Fits(y, |memory|)
    requires x.form.size == y.form.size == Order(matrix)
    requires !rankTwo ==> x == y && (hermitian ==> IsReal(alpha))
    ensures IsSelfAdjoint(UpdatedWhole(memory, matrix, triangle, hermitian, rankTwo, alpha, x, y), Order(matrix),
                          hermitian)
  {
    hide UpdateEntry, At, Offset, Span, Lowest;
    forall r, c | InOrder(matrix, r, c)
      ensures UpdatedWhole(memory, matrix, triangle, hermitian, rankTwo, alpha, x, y)(c, r)
              == MaybeConjugate(hermitian,
                                UpdatedWhole(memory, matrix, triangle, hermitian, rankTwo, alpha, x, y)(r, c))
    {
      UpdateIsSelfAdjoint(memory, hermitian, rankTwo, alpha, x, y, r, c);
      ConjugateAdd(hermitian, SymmetricAt(memory, matrix, triangle, r, c, hermitian),
                   UpdateEntry(memory, hermitian, rankTwo, alpha, x, y, r, c));
    }
  }

  /** On the diagonal only the imaginary part the input stored there is lost. */
  lemma StoredMatchesWhole(
      memory: Memory, matrix: View, triangle: Triangle, hermitian: bool, rankTwo: bool, alpha: Scalar, x: View, y: View,
      r: int, c: int)
    requires Fits(matrix, |memory|) && IsUpdateForm(matrix.form) && IsSquare(matrix)
    requires x.form.Vector? && Fits(x, |memory|) && y.form.Vector? && Fits(y, |memory|)
    requires x.form.size == y.form.size == Order(matrix)
    requires !rankTwo ==> x == y && (hermitian ==> IsReal(alpha))
    requires InOrder(matrix, r, c) && InTriangle(triangle, r, c)
    ensures UpdatedStored(memory, matrix, triangle, hermitian, rankTwo, alpha, x, y)(r, c)
            == UpdatedWhole(memory, matrix, triangle, hermitian, rankTwo, alpha, x, y)(r, c)
  {
    hide UpdateEntry, At, Offset, Span, Lowest;
    if r == c {
      UpdateIsSelfAdjoint(memory, hermitian, rankTwo, alpha, x, y, r, c);
    }
  }

  /** Operands that passed the checks of an update. */
  ghost predicate Updatable(length: nat, x: View, y: View, matrix: View) {
    && x.form.Vector? && y.form.Vector? && IsUpdateForm(matrix.form) && IsSquare(matrix)
    && Fits(x, length) && Fits(y, length) && Fits(matrix, length)
    && x.form.size == y.form.size == Order(matrix)
    && !Overlap(x, matrix) && !Overlap(y, matrix)
  }

  /** The update term computed from the vectors as they are now. */
  method ComputeUpdate(
      memory: array<Scalar>, triangle: Triangle, hermitian: bool, rankTwo: bool, alpha: Scalar, x: View, y: View,
      matrix: View, row: int, column: int, ghost before: Memory)
    returns (update: Scalar)
    requires Updatable(memory.Length, x, y, matrix) && InOrder(matrix, row, column)
    requires Framed(before, memory[..], matrix, triangle)
    ensures update == UpdateEntry(before, hermitian, rankTwo, alpha, x, y, row, column)
  {
    hide Mul, Add, Offset, Span, Lowest, IsPlace, Overlap, Outer;
    EntryUndisturbed(before, memory[..], x, Upper, matrix, triangle, row, 0);
    EntryUndisturbed(before, memory[..], x, Upper, matrix, triangle, column, 0);
    EntryUndisturbed(before, memory[..], y, Upper, matrix, triangle, row, 0);
    EntryUndisturbed(before, memory[..], y, Upper, matrix, triangle, column, 0);
    update := Outer(hermitian, alpha, VectorAt(memory[..], x, row), VectorAt(memory[..], y, column));
    if rankTwo {
      update := Add(update, Outer(hermitian, MaybeConjugate(hermitian, alpha),
                                  VectorAt(memory[..], y, row), VectorAt(memory[..], x, column)));
    }
  }

  /** The double loop over the stored triangle; each entry is written once. */
  method UpdateTriangle(
      memory: array<Scalar>, triangle: Triangle, hermitian: bool, rankTwo: bool, alpha: Scalar, x: View, y: View,
      matrix: View)
    requires Updatable(memory.Length, x, y, matrix)
    modifies memory
    ensures TriangleRewritten(old(memory[..]), memory[..], matrix, triangle,
                              UpdatedStored(old(memory[..]), matrix, triangle, hermitian, rankTwo, alpha, x, y),
                              Order(matrix), 0)
  {
    hide Mul, Add, Offset, Span, Lowest, IsPlace, Overlap, UpdateEntry;
    ghost var before := memory[..];
    ghost var value := UpdatedStored(before, matrix, triangle, hermitian, rankTwo, alpha, x, y);
    var order := Order(matrix);
    for row := 0 to order
      invariant TriangleRewritten(before, memory[..], matrix, triangle, value, row, 0)
    {
      var begin := if triangle == Upper then row else 0;
      var end := if triangle == Upper then order else row + 1;
      for column := begin to end
        invariant TriangleRewritten(before, memory[..], matrix, triangle, value, row, column)
      {
        var update := ComputeUpdate(memory, triangle, hermitian, rankTwo, alpha, x, y, matrix, row, column, before);
        RewriteEntry(before, memory[..], matrix, triangle, value, row, column);
        ghost var current := memory[..];
        var place := Place(matrix, triangle, row, column);
        memory[place] := Add(memory[place], update);
        if hermitian && row == column {
          memory[place] := RealPart(memory[place]);
        }
        assert memory[..] == current[place := value(row, column)];
      }
      NextRow(before, memory[..], matrix, triangle, value, row);
    }
  }

  /** What an update leaves behind, entry by entry of the whole matrix. */
  ghost predicate Updated(
      before: Memory, current: Memory, matrix: View, triangle: Triangle, hermitian: bool, rankTwo: bool, alpha: Scalar,
      x: View, y: View)
    requires |current| == |before| && Updatable(|before|, x, y, matrix)
  {
    && Framed(before, current, matrix, triangle)
    && (forall r, c :: IsSlot(matrix.form, triangle, r, c) && !InTriangle(triangle, r, c) ==>
          At(current, matrix, triangle, r, c) == At(before, matrix, triangle, r, c))
    && (forall r, c :: InOrder(matrix, r, c) ==>
          SymmetricAt(current, matrix, triangle, r, c, hermitian)
          == Add(SymmetricAt(before, matrix, triangle, r, c, hermitian),
                 UpdateEntry(before, hermitian, rankTwo, alpha, x, y, r, c)))
  }

  lemma {:induction false} RewrittenIsUpdated(
      before: Memory, current: Memory, matrix: View, triangle: Triangle, hermitian: bool, rankTwo: bool, alpha: Scalar,
      x: View, y: View)
    requires |current| == |before| && Updatable(|before|, x, y, matrix)
    requires !rankTwo ==> x == y && (hermitian ==> IsReal(alpha))
    requires TriangleRewritten(before, current, matrix, triangle,
                               UpdatedStored(before, matrix, triangle, hermitian, rankTwo, alpha, x, y),
                               Order(matrix), 0)
    ensures Updated(before, current, matrix, triangle, hermitian, rankTwo, alpha, x, y)
    ensures hermitian ==> forall k :: 0 <= k < Order(matrix) ==> IsReal(At(current, matrix, triangle, k, k))
  {
    hide Add, Mul, UpdateEntry, Offset, Span, Lowest, IsPlace, Overlap, SymmetricAt, At;
    var whole := UpdatedWhole(before, matrix, triangle, hermitian, rankTwo, alpha, x, y);
    var value := UpdatedStored(before, matrix, triangle, hermitian, rankTwo, alpha, x, y);
    WholeIsSelfAdjoint(before, matrix, triangle, hermitian, rankTwo, alpha, x, y);
    forall r, c | InOrder(matrix, r, c) && InTriangle(triangle, r, c)
      ensures value(r, c) == whole(r, c)
    {
      StoredMatchesWhole(before, matrix, triangle, hermitian, rankTwo, alpha, x, y, r, c);
    }
    forall r, c | InOrder(matrix, r, c)
      ensures SymmetricAt(current, matrix, triangle, r, c, hermitian) == whole(r, c)
    {
      ExpandedAfter(before, current, matrix, triangle, hermitian, value, whole, r, c);
    }
    forall k | 0 <= k < Order(matrix) && hermitian
      ensures IsReal(At(current, matrix, triangle, k, k))
    {
      assert IsSlot(matrix.form, triangle, k, k) && InTriangle(triangle, k, k);
      assert At(current, matrix, triangle, k, k) == value(k, k);
    }
  }

  lemma NothingToUpdate(
      memory: Memory, matrix: View, triangle: Triangle, hermitian: bool, rankTwo: bool, x: View, y: View)
    requires Updatable(|memory|, x, y, matrix)
    ensures Updated(memory, memory, matrix, triangle, hermitian, rankTwo, ZERO, x, y)
  {
    hide Offset, Span, Lowest, IsPlace, Overlap, SymmetricAt, At;
  }

  /** Her, Hpr, Syr and Spr. */
  method RankOne(
      memory: array<Scalar>, backend: Backend, triangle: Triangle, hermitian: bool, alpha: Scalar, x: View,
      matrix: View)
    returns (status: Status)
    requires x.form.Vector? && Fits(x, memory.Length) && IsUpdateForm(matrix.form) && Fits(matrix, memory.Length)
    requires hermitian ==> IsReal(alpha)
    modifies memory
    ensures status == RankUpdateStatus(backend, x, x, matrix)
    ensures status != Ok || alpha == ZERO ==> memory[..] == old(memory[..])
    ensures status == Ok ==> Updated(old(memory[..]), memory[..], matrix, triangle, hermitian, false, alpha, x, x)
    ensures status == Ok && hermitian && alpha != ZERO ==>
              forall k :: 0 <= k < Order(matrix) ==> IsReal(At(memory[..], matrix, triangle, k, k))
  {
    hide UpdateEntry, SymmetricAt, Offset, Span, Lowest, Updated;
    status := RankUpdateStatus(backend, x, x, matrix);
    if status != Ok {
      return;
    }
    if alpha == ZERO {
      NothingToUpdate(memory[..], matrix, triangle, hermitian, false, x, x);
      return;
    }
    ghost var before := memory[..];
    UpdateTriangle(memory, triangle, hermitian, false, alpha, x, x, matrix);
    RewrittenIsUpdated(before, memory[..], matrix, triangle, hermitian, false, alpha, x, x);
  }

  /** Her2, Hpr2, Syr2 and Spr2. */
  method RankTwo(
      memory: array<Scalar>, backend: Backend, triangle: Triangle, hermitian: bool, alpha: Scalar, x: View, y: View,
      matrix: View)
    returns (status: Status)
    requires x.form.Vector? && Fits(x, memory.Length) && y.form.Vector? && Fits(y, memory.Length)
    requires IsUpdateForm(matrix.form) && Fits(matrix, memory.Length)
    modifies memory
    ensures status == RankUpdateStatus(backend, x, y, matrix)
    ensures status != Ok || alpha == ZERO ==> memory[..] == old(memory[..])
    ensures status == Ok ==> Updated(old(memory[..]), memory[..], matrix, triangle, hermitian, true, alpha, x, y)
    ensures status == Ok && hermitian && alpha != ZERO ==>
              forall k :: 0 <= k < Order(matrix) ==> IsReal(At(memory[..], matrix, triangle, k, k))
  {
    hide UpdateEntry, SymmetricAt, Offset, Span, Lowest, Updated;
    status := RankUpdateStatus(backend, x, y, matrix);
    if status != Ok {
      return;
    }
    if alpha == ZERO {
      NothingToUpdate(memory[..], matrix, triangle, hermitian, true, x, y);
      return;
    }
    ghost var before := memory[..];
    UpdateTriangle(memory, triangle, hermitian, true, alpha, x, y, matrix);
    RewrittenIsUpdated(before, memory[..], matrix, triangle, hermitian, true, alpha, x, y);
  }

  /** Targets that expand to the same matrix, full or packed, still do after the same update. */
  lemma SameUpdateSameMatrix(
      m: Memory, m': Memory, a: View, n: Memory, n': Memory, b: View, triangle: Triangle, hermitian: bool,
      rankTwo: bool,
      alpha: Scalar, x: View, y: View, u: View, v: View, r: int, c: int)
    requires |m'| == |m| && |n'| == |n| && Updatable(|m|, x, y, a) && Updatable(|n|, u, v, b) && Order(a) == Order(b)
    requires Updated(m, m', a, triangle, hermitian, rankTwo, alpha, x, y)
    requires Updated(n, n', b, triangle, hermitian, rankTwo, alpha, u, v)
    requires forall k :: 0 <= k < Order(a) ==>
      VectorAt(m, x, k) == VectorAt(n, u, k) && VectorAt(m, y, k) == VectorAt(n, v, k)
    requires InOrder(a, r, c)
    requires SymmetricAt(m, a, triangle, r, c, hermitian) == SymmetricAt(n, b, triangle, r, c, hermitian)
    ensures SymmetricAt(m', a, triangle, r, c, hermitian) == SymmetricAt(n', b, triangle, r, c, hermitian)
  {
    hide Offset, Span, Lowest, Overlap, SymmetricAt, Mul, Add, Outer;
    assert InOrder(b, r, c);
  }
}
