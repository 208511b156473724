/**
 Storage descriptors of the dense kernels: full, general-band, triangular-band
 and packed matrices and strided vectors, each a window onto one flat memory.
 */
module Storage {
  import opened Results
  import opened Checked

  datatype Layout = ColumnMajor | RowMajor
  datatype Triangle = Upper | Lower
  datatype Diagonal = NonUnit | Unit
  datatype Transpose = NoTranspose | Transposed | ConjugateTransposed
  datatype Side = Left | Right
  datatype Backend = Serial | Cuda | Hip | Sycl
  datatype MemorySpace = Host | PinnedHost | Device | Managed

  datatype Form =
    | Full(rows: int, columns: int, layout: Layout, leading: int)
    | GeneralBand(rows: int, columns: int, lower: int, upper: int, layout: Layout, leading: int)
    | TriangularBand(order: int, bandwidth: int, layout: Layout, leading: int)
    | Packed(order: int, layout: Layout)
    | Vector(size: int, increment: int)

  /** A descriptor placed at an element of the memory. */
  datatype View = View(base: int, form: Form, space: MemorySpace)

  function Max(a: int, b: int): int {
    if a < b then b else a
  }

  // ----- Descriptors --------------------------------------------------------

  /** The shape conditions a descriptor must meet, free of machine limits. */
  predicate WellFormed(form: Form) {
    match form
    case Full(rows, columns, layout, leading) =>
      && 0 <= rows && 0 <= columns
      && Max(1, if layout == ColumnMajor then rows else columns) <= leading
    case GeneralBand(rows, columns, lower, upper, layout, leading) =>
      && 0 <= rows && 0 <= columns && 0 <= lower && 0 <= upper
      && (if rows == 0 then lower == 0 else lower < rows)
      && (if columns == 0 then upper == 0 else upper < columns)
      && lower + upper + 1 <= leading
    case TriangularBand(order, bandwidth, layout, leading) =>
      && 0 <= order && 0 <= bandwidth
      && (order != 0 ==> bandwidth < order)
      && bandwidth + 1 <= leading
    case Packed(order, layout) => 0 <= order
    case Vector(size, increment) => 0 <= size && increment != 0
  }

  /** Number of elements a matrix descriptor spans. */
  function Span(form: Form): int {
    match form
    case Full(rows, columns, layout, leading) =>
      if rows == 0 || columns == 0 then 0
      else if layout == ColumnMajor then (columns - 1) * leading + rows
      else (rows - 1) * leading + columns
    case GeneralBand(rows, columns, lower, upper, layout, leading) =>
      if rows == 0 || columns == 0 then 0
      else if layout == ColumnMajor then columns * leading
      else rows * leading
    case TriangularBand(order, bandwidth, layout, leading) => order * leading
    case Packed(order, layout) => order * (order + 1) / 2
    case Vector(size, increment) =>
      if size == 0 then 0 else (size - 1) * (if increment < 0 then -increment else increment) + 1
  }

  /** The lowest offset reached; only a negative increment reaches below its first element. */
  function Lowest(form: Form): int {
    if form.Vector? && form.size > 0 && form.increment < 0 then (form.size - 1) * form.increment else 0
  }

  /** The coordinates that own an element of the storage. */
  predicate IsSlot(form: Form, triangle: Triangle, row: int, column: int) {
    match form
    case Full(rows, columns, _, _) => 0 <= row < rows && 0 <= column < columns
    case GeneralBand(rows, columns, lower, upper, _, _) =>
      && 0 <= row < rows && 0 <= column < columns
      && column <= row + upper && row <= column + lower
    case TriangularBand(order, bandwidth, _, _) =>
      && 0 <= row < order && 0 <= column < order
      && (if triangle == Upper then row <= column <= row + bandwidth else column <= row <= column + bandwidth)
    case Packed(order, _) =>
      && 0 <= row < order && 0 <= column < order
      && (if triangle == Upper then row <= column else column <= row)
    case Vector(size, _) => 0 <= row < size && column == 0
  }

  function PackedOffset(order: int, layout: Layout, triangle: Triangle, row: int, column: int): int {
    if layout == ColumnMajor then
      if triangle == Upper then
        column * (column + 1) / 2 + row
      else
        column * order - column * (column - 1) / 2 + row - column
    else if triangle == Upper then
      row * order - row * (row - 1) / 2 + column - row
    else
      row * (row + 1) / 2 + column
  }

  function Offset(form: Form, triangle: Triangle, row: int, column: int): int {
    match form
    case Full(_, _, layout, leading) =>
      if layout == ColumnMajor then column * leading + row else row * leading + column
    case GeneralBand(_, _, lower, upper, layout, leading) =>
      if layout == ColumnMajor then column * leading + upper + row - column
      else row * leading + lower + column - row
    case TriangularBand(_, bandwidth, layout, leading) =>
      if layout == ColumnMajor then
        if triangle == Upper then column * leading + bandwidth + row - column
        else column * leading + row - column
      else
        if triangle == Upper then row * leading + column - row
        else row * leading + bandwidth + column - row
    case Packed(order, layout) => PackedOffset(order, layout, triangle, row, column)
    case Vector(_, increment) => row * increment
  }

  // ----- Triangular numbers -------------------------------------------------

  function TriangularNumber(n: nat): nat {
    if n == 0 then 0 else TriangularNumber(n - 1) + n
  }

  lemma {:induction false} TriangularNumberIs(n: nat)
    ensures 2 * TriangularNumber(n) == n * (n + 1)
    ensures n * (n + 1) / 2 == TriangularNumber(n)
  {
    if n == 0 {
    } else {
      TriangularNumberIs(n - 1);
      assert n * (n + 1) == (n - 1) * n + 2 * n;
    }
  }

  lemma {:induction false} TriangularNumberMonotone(m: nat, n: nat)
    requires m <= n
    ensures TriangularNumber(m) <= TriangularNumber(n)
    ensures m < n ==> TriangularNumber(m) + m + 1 <= TriangularNumber(n)
  {
    if m < n {
      TriangularNumberMonotone(m, n - 1);
    }
  }

  // ----- Packed storage -----------------------------------------------------

  /** Rank of `(major, minor)`, `minor <= major`, when major lines grow by one element each. */
  function GrowingRank(major: nat, minor: nat): nat {
    TriangularNumber(major) + minor
  }

  /** The layouts whose major lines grow; the other two are their reversal. */
  predicate Grows(layout: Layout, triangle: Triangle) {
    (layout == ColumnMajor) == (triangle == Upper)
  }

  /** The packed order stated without the kernels' closed formulas. */
  function PackedRank(order: nat, layout: Layout, triangle: Triangle, row: nat, column: nat): int
    requires row < order && column < order
  {
    var major, minor := if layout == ColumnMajor then column else row, if layout == ColumnMajor then row else column;
    if Grows(layout, triangle) then GrowingRank(major, minor)
    else TriangularNumber(order) - 1 - GrowingRank(order - 1 - major, order - 1 - minor)
  }

  lemma SquareOfSum(d: int, k: int)
    ensures 2 * (k * (d + k)) - k * (k - 1) + (d - 1) * d + 2 * d == (d + k) * (d + k + 1)
  {
  }

  lemma {:induction false} ShrinkingFormula(order: nat, k: nat)
    requires k < order
    ensures k * order - k * (k - 1) / 2 + TriangularNumber(order - 1 - k) + order - k == TriangularNumber(order)
  {
    hide TriangularNumber;
    TriangularNumberIs(order);
    TriangularNumberIs(order - 1 - k);
    var half := k * (k - 1) / 2;
    assert 2 * half == k * (k - 1) by {
      if k > 0 {
        TriangularNumberIs(k - 1);
        assert (k - 1) * k == k * (k - 1);
      }
    }
    SquareOfSum(order - k, k);
  }

  lemma PackedOffsetIsRank(order: nat, layout: Layout, triangle: Triangle, row: nat, column: nat)
    requires IsSlot(Packed(order, layout), triangle, row, column)
    ensures PackedOffset(order, layout, triangle, row, column) == PackedRank(order, layout, triangle, row, column)
  {
    TriangularNumberIs(row);
    TriangularNumberIs(column);
    ShrinkingFormula(order, row);
    ShrinkingFormula(order, column);
  }

  lemma {:induction false} GrowingRankInjective(a: nat, b: nat, a': nat, b': nat)
    requires b <= a && b' <= a'
    requires GrowingRank(a, b) == GrowingRank(a', b')
    ensures a == a' && b == b'
  {
    if a < a' {
      TriangularNumberMonotone(a, a');
    } else if a' < a {
      TriangularNumberMonotone(a', a);
    }
  }

  lemma {:induction false} GrowingRankCovers(order: nat, k: nat) returns (major: nat, minor: nat)
    requires k < TriangularNumber(order)
    ensures minor <= major < order && GrowingRank(major, minor) == k
  {
    if k < TriangularNumber(order - 1) {
      major, minor := GrowingRankCovers(order - 1, k);
    } else {
      major, minor := order - 1, k - TriangularNumber(order - 1);
    }
  }

  /** Every stored coordinate has an offset below n(n+1)/2. */
  lemma PackedOffsetInRange(order: nat, layout: Layout, triangle: Triangle, row: nat, column: nat)
    requires IsSlot(Packed(order, layout), triangle, row, column)
    ensures 0 <= PackedOffset(order, layout, triangle, row, column) < Span(Packed(order, layout))
  {
    PackedOffsetIsRank(order, layout, triangle, row, column);
    TriangularNumberIs(order);
    var major := if layout == ColumnMajor then column else row;
    TriangularNumberMonotone(major, order);
    TriangularNumberMonotone(order - 1 - major, order);
  }

  /** Distinct stored coordinates have distinct offsets. */
  lemma PackedOffsetInjective(order: nat, layout: Layout, triangle: Triangle, r: nat, c: nat, r': nat, c': nat)
    requires IsSlot(Packed(order, layout), triangle, r, c) && IsSlot(Packed(order, layout), triangle, r', c')
    requires PackedOffset(order, layout, triangle, r, c) == PackedOffset(order, layout, triangle, r', c')
    ensures r == r' && c == c'
  {
    PackedOffsetIsRank(order, layout, triangle, r, c);
    PackedOffsetIsRank(order, layout, triangle, r', c');
    var (a, b) := if layout == ColumnMajor then (c, r) else (r, c);
    var (a', b') := if layout == ColumnMajor then (c', r') else (r', c');
    if Grows(layout, triangle) {
      GrowingRankInjective(a, b, a', b');
    } else {
      GrowingRankInjective(order - 1 - a, order - 1 - b, order - 1 - a', order - 1 - b');
    }
  }

  /** Every offset below n(n+1)/2 belongs to a stored coordinate. */
  lemma PackedOffsetSurjective(order: nat, layout: Layout, triangle: Triangle, k: nat) returns (r: nat, c: nat)
    requires k < Span(Packed(order, layout))
    ensures IsSlot(Packed(order, layout), triangle, r, c)
    ensures PackedOffset(order, layout, triangle, r, c) == k
  {
    TriangularNumberIs(order);
    var a, b;
    if Grows(layout, triangle) {
      a, b := GrowingRankCovers(order, k);
    } else {
      a, b := GrowingRankCovers(order, TriangularNumber(order) - 1 - k);
      a, b := order - 1 - a, order - 1 - b;
    }
    r, c := if layout == ColumnMajor then b else a, if layout == ColumnMajor then a else b;
    PackedOffsetIsRank(order, layout, triangle, r, c);
  }

  /** Coordinates in the order of the packed lines. */
  predicate PackedBefore(layout: Layout, r: int, c: int, r': int, c': int) {
    if layout == ColumnMajor then c < c' || (c == c' && r < r') else r < r' || (r == r' && c < c')
  }

  lemma {:induction false} GrowingRankOrder(a: nat, b: nat, a': nat, b': nat)
    requires b <= a && b' <= a' && (a < a' || (a == a' && b < b'))
    ensures GrowingRank(a, b) < GrowingRank(a', b')
  {
    TriangularNumberMonotone(a, a');
  }

  /** Column by column or row by row, later coordinates have larger offsets; with
      the range and the bijection this is the only such numbering. */
  lemma {:induction false} PackedOffsetOrder(
      order: nat, layout: Layout, triangle: Triangle, r: nat, c: nat, r': nat, c': nat)
    requires IsSlot(Packed(order, layout), triangle, r, c) && IsSlot(Packed(order, layout), triangle, r', c')
    requires PackedBefore(layout, r, c, r', c')
    ensures PackedOffset(order, layout, triangle, r, c) < PackedOffset(order, layout, triangle, r', c')
  {
    PackedOffsetIsRank(order, layout, triangle, r, c);
    PackedOffsetIsRank(order, layout, triangle, r', c');
    var (a, b) := if layout == ColumnMajor then (c, r) else (r, c);
    var (a', b') := if layout == ColumnMajor then (c', r') else (r', c');
    if Grows(layout, triangle) {
      GrowingRankOrder(a, b, a', b');
    } else {
      GrowingRankOrder(order - 1 - a', order - 1 - b', order - 1 - a, order - 1 - b);
    }
  }

  /** Arithmetic as it is written, to be evaluated step by step. */
  datatype Arithmetic =
    | Number(n: int)
    | Plus(a: Arithmetic, b: Arithmetic)
    | Minus(a: Arithmetic, b: Arithmetic)
    | Times(a: Arithmetic, b: Arithmetic)
    | Halved(a: Arithmetic)

  function Evaluated(e: Arithmetic): int {
    match e
    case Number(n) => n
    case Plus(a, b) => Evaluated(a) + Evaluated(b)
    case Minus(a, b) => Evaluated(a) - Evaluated(b)
    case Times(a, b) => Evaluated(a) * Evaluated(b)
    case Halved(a) => Evaluated(a) / 2
  }

  /** Every value met while evaluating lies between the limits. */
  predicate StaysWithin(e: Arithmetic, low: int, high: int) {
    && low <= Evaluated(e) <= high
    && match e
       case Number(_) => true
       case Plus(a, b) => StaysWithin(a, low, high) && StaysWithin(b, low, high)
       case Minus(a, b) => StaysWithin(a, low, high) && StaysWithin(b, low, high)
       case Times(a, b) => StaysWithin(a, low, high) && StaysWithin(b, low, high)
       case Halved(a) => StaysWithin(a, low, high)
  }

  /** The packed formulas as the kernels write them. */
  function PackedExpression(order: int, layout: Layout, triangle: Triangle, row: int, column: int): Arithmetic {
    var n, r, c, one := Number(order), Number(row), Number(column), Number(1);
    if layout == ColumnMajor then
      if triangle == Upper then Plus(Halved(Times(c, Plus(c, one))), r)
      else Minus(Plus(Minus(Times(c, n), Halved(Times(c, Minus(c, one)))), r), c)
    else if triangle == Upper then Minus(Plus(Minus(Times(r, n), Halved(Times(r, Minus(r, one)))), c), r)
    else Plus(Halved(Times(r, Plus(r, one))), c)
  }

  lemma {:induction false} MajorLineBounds(n: nat, k: nat)
    requires k < n
    ensures 0 <= k * n && k * n + n <= n * (n + 1)
    ensures 0 <= k * (k - 1) <= k * n
    ensures 0 <= k * (k + 1) && k * (k + 1) + n <= n * (n + 1)
    ensures n + 1 <= n * (n + 1)
  {
    MonotoneProduct(0, k, n);
    MonotoneProduct(k + 1, n, n);
    assert n * (n + 1) == n * n + n;
    assert (k + 1) * n == k * n + n;
    MonotoneProduct(k - 1, n, k);
    MonotoneProduct(k + 1, n, k);
    SignOfProduct(k, k - 1);
    MonotoneProduct(1, n, n);
  }

  /** Evaluating the formulas gives the offset, and no value met on the way
      exceeds n(n+1), the product the descriptor's creation computed without overflow. */
  lemma {:induction false} PackedStepsFit(order: nat, layout: Layout, triangle: Triangle, row: nat, column: nat)
    requires IsSlot(Packed(order, layout), triangle, row, column)
    ensures var e := PackedExpression(order, layout, triangle, row, column);
      Evaluated(e) == PackedOffset(order, layout, triangle, row, column) && StaysWithin(e, -1, order * (order + 1))
  {
    MajorLineBounds(order, if layout == ColumnMajor then column else row);
    var e := PackedExpression(order, layout, triangle, row, column);
    var limit := order * (order + 1);
    if Grows(layout, triangle) {
      GrowingSteps(if layout == ColumnMajor then column else row, if layout == ColumnMajor then row else column, limit);
    } else {
      ShrinkingSteps(
        order, if layout == ColumnMajor then column else row, if layout == ColumnMajor then row else column, limit);
    }
  }

  lemma GrowingSteps(k: nat, minor: nat, limit: int)
    requires k + 1 <= limit && minor <= limit && 0 <= k * (k + 1) && k * (k + 1) + minor <= limit
    ensures var e := Plus(Halved(Times(Number(k), Plus(Number(k), Number(1)))), Number(minor));
      Evaluated(e) == k * (k + 1) / 2 + minor && StaysWithin(e, -1, limit)
  {
    var successor := Plus(Number(k), Number(1));
    assert StaysWithin(successor, -1, limit) && Evaluated(successor) == k + 1;
    var product := Times(Number(k), successor);
    assert StaysWithin(product, -1, limit) && Evaluated(product) == k * (k + 1);
    assert StaysWithin(Halved(product), -1, limit);
  }

  lemma ShrinkingSteps(n: nat, k: nat, minor: nat, limit: int)
    requires k <= minor < n && n <= limit && 0 <= k * (k - 1) <= k * n && k * n + n <= limit
    ensures var half := Halved(Times(Number(k), Minus(Number(k), Number(1))));
      var e := Minus(Plus(Minus(Times(Number(k), Number(n)), half), Number(minor)), Number(k));
      Evaluated(e) == k * n - k * (k - 1) / 2 + minor - k && StaysWithin(e, -1, limit)
  {
    var predecessor := Minus(Number(k), Number(1));
    assert StaysWithin(predecessor, -1, limit) && Evaluated(predecessor) == k - 1;
    var square := Times(Number(k), predecessor);
    assert StaysWithin(square, -1, limit) && Evaluated(square) == k * (k - 1);
    var half := Halved(square);
    assert StaysWithin(half, -1, limit) && Evaluated(half) == k * (k - 1) / 2;
    var product := Times(Number(k), Number(n));
    assert StaysWithin(product, -1, limit) && Evaluated(product) == k * n;
    assert StaysWithin(Minus(product, half), -1, limit);
    assert StaysWithin(Plus(Minus(product, half), Number(minor)), -1, limit);
  }

  // ----- Every form ---------------------------------------------------------

  lemma {:induction false} LineBound(leading: int, lines: int, line: int, x: int)
    requires 0 <= line < lines && 0 <= x < leading
    ensures 0 <= line * leading <= (lines - 1) * leading
    ensures 0 <= line * leading + x < lines * leading
  {
    MonotoneProduct(0, line, leading);
    MonotoneProduct(line, lines - 1, leading);
    assert lines * leading == (lines - 1) * leading + leading;
  }

  lemma NextLine(leading: int, a: int, a': int)
    requires 0 <= leading && a < a'
    ensures a * leading + leading <= a' * leading
  {
    MonotoneProduct(a + 1, a', leading);
  }

  lemma {:induction false} LineInjective(leading: int, a: int, x: int, a': int, x': int)
    requires 0 <= x < leading && 0 <= x' < leading
    requires a * leading + x == a' * leading + x'
    ensures a == a' && x == x'
  {
    if a < a' {
      NextLine(leading, a, a');
    } else if a' < a {
      NextLine(leading, a', a);
    }
  }

  /** Line and position within the line of a slot of a line-structured form. */
  function LineOf(form: Form, row: int, column: int): int
    requires !form.Packed? && !form.Vector?
  {
    if form.layout == ColumnMajor then column else row
  }

  /** Elements of one line of a band form. */
  function Height(form: Form): int
    requires form.GeneralBand? || form.TriangularBand?
  {
    if form.GeneralBand? then form.lower + form.upper + 1 else form.bandwidth + 1
  }

  /** Where the first element of the main diagonal lies: behind the diagonals
      that the first line stores before it. */
  function DiagonalStart(form: Form, triangle: Triangle): int {
    match form
    case GeneralBand(_, _, lower, upper, layout, _) => if layout == ColumnMajor then upper else lower
    case TriangularBand(_, bandwidth, layout, _) =>
      if (layout == ColumnMajor) == (triangle == Upper) then bandwidth else 0
    case _ => 0
  }

  /** Along a line offsets are consecutive; the next line, of a full matrix, or
      the next element of a diagonal, of a band, is one leading dimension further. */
  lemma OffsetSteps(form: Form, triangle: Triangle, row: int, column: int)
    requires !form.Packed? && !form.Vector?
    ensures Offset(form, triangle, 0, 0) == DiagonalStart(form, triangle)
    ensures form.layout == ColumnMajor ==>
              && Offset(form, triangle, row + 1, column) == Offset(form, triangle, row, column) + 1
              && Offset(form, triangle, if form.Full? then row else row + 1, column + 1)
                 == Offset(form, triangle, row, column) + form.leading
    ensures form.layout == RowMajor ==>
              && Offset(form, triangle, row, column + 1) == Offset(form, triangle, row, column) + 1
              && Offset(form, triangle, row + 1, if form.Full? then column else column + 1)
                 == Offset(form, triangle, row, column) + form.leading
  {
    NextProduct(row, form.leading);
    NextProduct(column, form.leading);
  }

  lemma NextProduct(k: int, leading: int)
    ensures (k + 1) * leading == k * leading + leading
  {
  }

  /** A coordinate of a band form is stored exactly when its position in its line is below the band's height. */
  lemma SlotIffInLine(form: Form, triangle: Triangle, row: int, column: int)
    requires form.GeneralBand? || form.TriangularBand?
    ensures IsSlot(form, triangle, row, column) <==>
      && (if form.GeneralBand? then 0 <= row < form.rows && 0 <= column < form.columns
          else 0 <= row < form.order && 0 <= column < form.order)
      && 0 <= Offset(form, triangle, row, column) - LineOf(form, row, column) * form.leading < Height(form)
  {
  }

  /** Every stored coordinate lies in the span that the descriptor validates. */
  lemma {:induction false} OffsetInReach(form: Form, triangle: Triangle, row: int, column: int)
    requires WellFormed(form) && IsSlot(form, triangle, row, column)
    ensures Lowest(form) <= Offset(form, triangle, row, column) < Lowest(form) + Span(form)
  {
    match form
    case Full(rows, columns, layout, leading) =>
      if layout == ColumnMajor {
        LineBound(leading, columns, column, row);
      } else {
        LineBound(leading, rows, row, column);
      }
    case GeneralBand(rows, columns, lower, upper, layout, leading) =>
      if layout == ColumnMajor {
        LineBound(leading, columns, column, upper + row - column);
      } else {
        LineBound(leading, rows, row, lower + column - row);
      }
    case TriangularBand(order, bandwidth, layout, leading) =>
      var line := LineOf(form, row, column);
      LineBound(leading, order, line, Offset(form, triangle, row, column) - line * leading);
    case Packed(order, layout) =>
      PackedOffsetInRange(order, layout, triangle, row, column);
    case Vector(size, increment) =>
      if increment > 0 {
        MonotoneProduct(row, size - 1, increment);
        MonotoneProduct(0, row, increment);
      } else {
        MonotoneProduct(row, size - 1, -increment);
        MonotoneProduct(0, row, -increment);
        assert row * -increment == -(row * increment);
        assert (size - 1) * -increment == -((size - 1) * increment);
      }
  }

  /** Distinct stored coordinates never share an element. */
  lemma {:induction false} OffsetInjective(form: Form, triangle: Triangle, r: int, c: int, r': int, c': int)
    requires WellFormed(form) && IsSlot(form, triangle, r, c) && IsSlot(form, triangle, r', c')
    requires Offset(form, triangle, r, c) == Offset(form, triangle, r', c')
    ensures r == r' && c == c'
  {
    match form
    case Packed(order, layout) =>
      PackedOffsetInjective(order, layout, triangle, r, c, r', c');
    case Vector(_, increment) =>
      assert (r - r') * increment == 0;
      if r != r' {
        SignedStep(r - r', increment);
      }
    case _ =>
      var a, a' := LineOf(form, r, c), LineOf(form, r', c');
      var x := Offset(form, triangle, r, c) - a * form.leading;
      var x' := Offset(form, triangle, r', c') - a' * form.leading;
      LineInjective(form.leading, a, x, a', x');
  }

  lemma SignedStep(k: int, increment: int)
    requires k != 0 && increment != 0
    ensures k * increment != 0
  {
  }

  // ----- Views on a memory --------------------------------------------------

  /** A view whose every slot is an element of a memory of `length` elements. */
  predicate Fits(view: View, length: nat) {
    && WellFormed(view.form)
    && (Span(view.form) > 0 ==>
          0 <= view.base + Lowest(view.form) && view.base + Lowest(view.form) + Span(view.form) <= length)
  }

  function Place(view: View, triangle: Triangle, row: int, column: int): int {
    view.base + Offset(view.form, triangle, row, column)
  }

  lemma PlaceFits(view: View, length: nat, triangle: Triangle, row: int, column: int)
    requires Fits(view, length) && IsSlot(view.form, triangle, row, column)
    ensures 0 <= Place(view, triangle, row, column) < length
  {
    OffsetInReach(view.form, triangle, row, column);
  }

  /** The overlap test of the kernels on two reachable ranges. */
  predicate Overlap(left: View, right: View) {
    && Span(left.form) > 0 && Span(right.form) > 0
    && left.base + Lowest(left.form) < right.base + Lowest(right.form) + Span(right.form)
    && right.base + Lowest(right.form) < left.base + Lowest(left.form) + Span(left.form)
  }

  /** Views that pass the overlap test share no element. */
  lemma NoSharedPlace(left: View, right: View, s: Triangle, t: Triangle, r: int, c: int, r': int, c': int)
    requires WellFormed(left.form) && WellFormed(right.form) && !Overlap(left, right)
    requires IsSlot(left.form, s, r, c) && IsSlot(right.form, t, r', c')
    ensures Place(left, s, r, c) != Place(right, t, r', c')
  {
    OffsetInReach(left.form, s, r, c);
    OffsetInReach(right.form, t, r', c');
  }
}
