/** Creation of storage descriptors with checked 64-bit arithmetic on addresses. */
module Descriptors {
  import opened Results
  import opened Checked
  import opened Storage

  /** Size and alignment of an element type. */
  datatype Element = Element(size: int, alignment: int)

  /** A backing byte range; address zero is the null pointer. */
  datatype Backing = Backing(address: int, bytes: int)

  predicate IsElement(element: Element) {
    0 < element.alignment <= element.size <= INT64.maximum
  }

  predicate IsBacking(backing: Backing) {
    InRange(UINT64, backing.address) && InRange(UINT64, backing.bytes)
  }

  predicate FieldsInRange(form: Form) {
    match form
    case Full(rows, columns, _, leading) =>
      InRange(INT64, rows) && InRange(INT64, columns) && InRange(INT64, leading)
    case GeneralBand(rows, columns, lower, upper, _, leading) =>
      && InRange(INT64, rows) && InRange(INT64, columns) && InRange(INT64, lower)
      && InRange(INT64, upper) && InRange(INT64, leading)
    case TriangularBand(order, bandwidth, _, leading) =>
      InRange(INT64, order) && InRange(INT64, bandwidth) && InRange(INT64, leading)
    case Packed(order, _) => InRange(INT64, order)
    case Vector(size, increment) => InRange(INT64, size) && InRange(INT64, increment)
  }

  /** The element span a matrix descriptor computes, or why it is rejected. */
  function CheckedSpan(form: Form): Result<int>
    requires !form.Vector?
  {
    match form
    case Full(rows, columns, layout, leading) =>
      if rows < 0 || columns < 0 then Failure(InvalidArgument) else
      var contiguous := if layout == ColumnMajor then rows else columns;
      if leading < Max(1, contiguous) then Failure(InvalidArgument)
      else if rows != 0 && columns != 0 then
        var major := if layout == ColumnMajor then columns else rows;
        var leadingSpan :- CheckedMultiply(INT64, major - 1, leading);
        CheckedAdd(INT64, leadingSpan, contiguous)
      else Success(0)
    case GeneralBand(rows, columns, lower, upper, layout, leading) =>
      if rows < 0 || columns < 0 || lower < 0 || upper < 0 then Failure(InvalidArgument)
      else if (if rows == 0 then lower != 0 else lower >= rows) ||
              (if columns == 0 then upper != 0 else upper >= columns)
      then Failure(InvalidArgument)
      else
        var bandSum :- CheckedAdd(INT64, lower, upper);
        var bandRows :- CheckedAdd(INT64, bandSum, 1);
        if leading < bandRows then Failure(InvalidArgument)
        else if rows != 0 && columns != 0 then
          CheckedMultiply(INT64, if layout == ColumnMajor then columns else rows, leading)
        else Success(0)
    case TriangularBand(order, bandwidth, layout, leading) =>
      if order < 0 || bandwidth < 0 || (order != 0 && bandwidth >= order) then Failure(InvalidArgument)
      else
        var storedRows :- CheckedAdd(INT64, bandwidth, 1);
        if leading < storedRows then Failure(InvalidArgument)
        else CheckedMultiply(INT64, order, leading)
    case Packed(order, layout) =>
      if order < 0 then Failure(InvalidArgument)
      else
        var successor :- CheckedAdd(INT64, order, 1);
        var product :- CheckedMultiply(INT64, order, successor);
        Success(product / 2)
  }

  /** The byte size of the span once it is known to lie inside the backing range. */
  function ValidateStorageBounds(data: int, span: int, element: Element, backing: Backing): Result<int>
    requires element.alignment > 0
  {
    if span < 0 || !(backing.bytes == 0 || backing.address != 0) then Failure(InvalidArgument)
    else if span == 0 then Success(0)
    else if data == 0 || backing.address == 0 then Failure(MemoryAccess)
    else if data % element.alignment != 0 then Failure(InvalidArgument)
    else
      var byteSpan :- CheckedMultiply(INT64, span, element.size);
      var converted :- CheckedCast(UINT64, byteSpan);
      if converted > UINT64.maximum - data then Failure(Overflow)
      else if backing.bytes > UINT64.maximum - backing.address then Failure(Overflow)
      else if data < backing.address || data + converted > backing.address + backing.bytes then Failure(MemoryAccess)
      else Success(converted)
  }

  function CreateMatrix(data: int, form: Form, element: Element, backing: Backing): Result<int>
    requires !form.Vector? && element.alignment > 0
  {
    var span :- CheckedSpan(form);
    ValidateStorageBounds(data, span, element, backing)
  }

  /** Reachable byte range of a vector, whose increment may be negative. */
  function CreateVector(data: int, size: int, increment: int, element: Element, backing: Backing): Result<(int, int)>
    requires element.alignment > 0
  {
    if size < 0 then Failure(InvalidArgument)
    else if increment == 0 then Failure(InvalidArgument)
    else if !(backing.bytes == 0 || backing.address != 0) then Failure(InvalidArgument)
    else if size == 0 then Success((0, 0))
    else if data == 0 || backing.address == 0 then Failure(MemoryAccess)
    else if data % element.alignment != 0 then Failure(InvalidArgument)
    else
      var elementOffset :- CheckedMultiply(INT64, size - 1, increment);
      var byteOffset :- CheckedMultiply(INT64, elementOffset, element.size);
      if byteOffset >= 0 && byteOffset > UINT64.maximum - data then Failure(Overflow)
      else if byteOffset < 0 && byteOffset == INT64.minimum then Failure(Overflow)
      else if byteOffset < 0 && data < -byteOffset then Failure(Overflow)
      else
        var other := data + byteOffset;
        var begin := if data < other then data else other;
        var last := if data < other then other else data;
        if element.size > UINT64.maximum - last then Failure(Overflow)
        else if backing.bytes > UINT64.maximum - backing.address then Failure(Overflow)
        else if begin < backing.address || last + element.size > backing.address + backing.bytes
        then Failure(MemoryAccess)
        else Success((begin, last + element.size - begin))
  }

  // ----- What creation guarantees -------------------------------------------

  /** Whether the span arithmetic stays inside 64 bits; packed storage needs
      room for n(n+1) although only half of it is stored. */
  predicate SpanFits(form: Form) {
    if form.Packed? then form.order + 1 <= INT64.maximum && form.order * (form.order + 1) <= INT64.maximum
    else Span(form) <= INT64.maximum
  }

  ghost predicate SpanIsExact(form: Form)
    requires !form.Vector?
  {
    && (CheckedSpan(form).Success? <==> WellFormed(form) && SpanFits(form))
    && (CheckedSpan(form).Success? ==> CheckedSpan(form).value == Span(form) && 0 <= Span(form))
  }

  lemma FullSpanIsExact(form: Form)
    requires form.Full? && FieldsInRange(form)
    ensures SpanIsExact(form)
  {
    hide CheckedMultiply, CheckedAdd;
    var Full(rows, columns, layout, leading) := form;
    if WellFormed(form) && rows != 0 && columns != 0 {
      var major := if layout == ColumnMajor then columns else rows;
      MultiplyIsExact(INT64, major - 1, leading);
      MonotoneProduct(0, major - 1, leading);
      if InRange(INT64, (major - 1) * leading) {
        AddIsExact(INT64, (major - 1) * leading, if layout == ColumnMajor then rows else columns);
      }
    }
  }

  lemma BandSpanIsExact(form: Form)
    requires form.GeneralBand? && FieldsInRange(form)
    ensures SpanIsExact(form)
  {
    hide CheckedMultiply, CheckedAdd;
    AddIsExact(INT64, form.lower, form.upper);
    if InRange(INT64, form.lower + form.upper) {
      AddIsExact(INT64, form.lower + form.upper, 1);
    }
    var major := if form.layout == ColumnMajor then form.columns else form.rows;
    MultiplyIsExact(INT64, major, form.leading);
    SignOfProduct(major, form.leading);
  }

  lemma OrderSpanIsExact(form: Form)
    requires (form.TriangularBand? || form.Packed?) && FieldsInRange(form)
    ensures SpanIsExact(form)
  {
    hide CheckedMultiply, CheckedAdd;
    var order := form.order;
    if form.Packed? {
      AddIsExact(INT64, order, 1);
      SignOfProduct(order, order + 1);
      if InRange(INT64, order + 1) {
        MultiplyIsExact(INT64, order, order + 1);
      }
    } else {
      AddIsExact(INT64, form.bandwidth, 1);
      MultiplyIsExact(INT64, order, form.leading);
      SignOfProduct(order, form.leading);
    }
  }

  /** The checked span is the mathematical one exactly for well-formed
      descriptors whose arithmetic fits. */
  lemma {:induction false} CheckedSpanIsExact(form: Form)
    requires !form.Vector? && FieldsInRange(form)
    ensures CheckedSpan(form).Success? <==> WellFormed(form) && SpanFits(form)
    ensures CheckedSpan(form).Success? ==> CheckedSpan(form).value == Span(form) && 0 <= Span(form)
  {
    hide CheckedSpan, WellFormed, SpanFits, Span;
    if form.Full? {
      FullSpanIsExact(form);
    } else if form.GeneralBand? {
      BandSpanIsExact(form);
    } else {
      OrderSpanIsExact(form);
    }
  }

  /** A band whose shape is right but whose height is not a 64-bit number. */
  predicate HeightOverflows(form: Form) {
    match form
    case GeneralBand(rows, columns, lower, upper, _, _) =>
      && 0 <= rows && 0 <= columns && 0 <= lower && 0 <= upper
      && (rows == 0 ==> lower == 0) && (rows > 0 ==> lower < rows)
      && (columns == 0 ==> upper == 0) && (columns > 0 ==> upper < columns)
      && lower + upper + 1 > INT64.maximum
    case TriangularBand(order, bandwidth, _, _) =>
      0 <= order && 0 <= bandwidth && (order > 0 ==> bandwidth < order) && bandwidth + 1 > INT64.maximum
    case _ => false
  }

  /** A descriptor is refused for overflow exactly when its shape is right, and as invalid otherwise. */
  lemma {:induction false} SpanIsRefusedExactly(form: Form)
    requires !form.Vector? && FieldsInRange(form) && CheckedSpan(form).Failure?
    ensures CheckedSpan(form).error == if WellFormed(form) || HeightOverflows(form) then Overflow else InvalidArgument
  {
    hide CheckedMultiply, CheckedAdd;
    match form
    case Full(_, _, _, _) =>
      FullIsRefused(form);
    case GeneralBand(rows, columns, lower, upper, layout, leading) =>
      AddIsExact(INT64, lower, upper);
      if InRange(INT64, lower + upper) {
        AddIsExact(INT64, lower + upper, 1);
      }
      MultiplyIsExact(INT64, if layout == ColumnMajor then columns else rows, leading);
    case TriangularBand(order, bandwidth, _, leading) =>
      AddIsExact(INT64, bandwidth, 1);
      MultiplyIsExact(INT64, order, leading);
    case Packed(order, _) =>
      AddIsExact(INT64, order, 1);
      if InRange(INT64, order + 1) {
        MultiplyIsExact(INT64, order, order + 1);
      }
  }

  lemma FullIsRefused(form: Form)
    requires form.Full? && FieldsInRange(form) && CheckedSpan(form).Failure?
    ensures CheckedSpan(form).error == if WellFormed(form) then Overflow else InvalidArgument
  {
    hide CheckedMultiply, CheckedAdd;
    var Full(rows, columns, layout, leading) := form;
    if WellFormed(form) && rows > 0 && columns > 0 {
      var major := if layout == ColumnMajor then columns else rows;
      MultiplyIsExact(INT64, major - 1, leading);
      AddErrors((major - 1) * leading, if layout == ColumnMajor then rows else columns);
    }
  }

  lemma AddErrors(left: int, right: int)
    ensures CheckedAdd(INT64, left, right).Failure? ==> CheckedAdd(INT64, left, right).error == Overflow
  {
  }

  lemma {:induction false} ScaledPlace(offset: int, span: int, size: int)
    requires 0 <= offset < span && 0 < size
    ensures 0 <= offset * size && offset * size + size <= span * size
  {
    MonotoneProduct(0, offset, size);
    MonotoneProduct(offset + 1, span, size);
  }

  /** Every stored element of a created matrix lies inside its backing range. */
  lemma {:induction false} CreatedMatrixIsReachable(
      data: int, form: Form, element: Element, backing: Backing, triangle: Triangle, row: int, column: int)
    requires !form.Vector? && FieldsInRange(form) && IsElement(element) && IsBacking(backing) && InRange(UINT64, data)
    requires CreateMatrix(data, form, element, backing).Success?
    requires IsSlot(form, triangle, row, column)
    ensures WellFormed(form)
    ensures var first := data + Offset(form, triangle, row, column) * element.size;
      backing.address <= first && first + element.size <= backing.address + backing.bytes
  {
    hide CheckedMultiply, CheckedAdd, CheckedSpan;
    CheckedSpanIsExact(form);
    OffsetInReach(form, triangle, row, column);
    MultiplyIsExact(INT64, Span(form), element.size);
    ScaledPlace(Offset(form, triangle, row, column), Span(form), element.size);
  }

  /** On a created packed view evaluating the offset formulas never leaves 64 bits. */
  lemma {:induction false} CreatedPackedStepsFit(
      data: int, order: int, layout: Layout, element: Element, backing: Backing, triangle: Triangle, row: int,
      column: int)
    requires InRange(INT64, order) && element.alignment > 0
    requires CreateMatrix(data, Packed(order, layout), element, backing).Success?
    requires IsSlot(Packed(order, layout), triangle, row, column)
    ensures var e := PackedExpression(order, layout, triangle, row, column);
      && Evaluated(e) == PackedOffset(order, layout, triangle, row, column)
      && StaysWithin(e, INT64.minimum, INT64.maximum)
  {
    hide PackedExpression, PackedOffset, CheckedSpan;
    CheckedSpanIsExact(Packed(order, layout));
    PackedStepsFit(order, layout, triangle, row, column);
    Widened(PackedExpression(order, layout, triangle, row, column), -1, order * (order + 1), INT64.minimum,
            INT64.maximum);
  }

  lemma {:induction false} Widened(e: Arithmetic, low: int, high: int, low': int, high': int)
    requires StaysWithin(e, low, high) && low' <= low && high <= high'
    ensures StaysWithin(e, low', high')
  {
    match e
    case Number(_) =>
    case Plus(a, b) =>
      Widened(a, low, high, low', high');
      Widened(b, low, high, low', high');
    case Minus(a, b) =>
      Widened(a, low, high, low', high');
      Widened(b, low, high, low', high');
    case Times(a, b) =>
      Widened(a, low, high, low', high');
      Widened(b, low, high, low', high');
    case Halved(a) =>
      Widened(a, low, high, low', high');
  }

  // ----- Exactly what is created --------------------------------------------

  predicate IsValid(backing: Backing) {
    backing.bytes == 0 || backing.address != 0
  }

  /** A byte range inside the backing range, whose own end is an address. */
  predicate Backed(backing: Backing, begin: int, end: int) {
    && backing.address + backing.bytes <= UINT64.maximum
    && backing.address <= begin && end <= backing.address + backing.bytes
  }

  lemma SpanIsRepresentable(form: Form)
    requires !form.Vector? && FieldsInRange(form) && WellFormed(form) && SpanFits(form)
    ensures 0 <= Span(form) <= INT64.maximum
  {
    hide WellFormed, Span, CheckedSpan;
    CheckedSpanIsExact(form);
    if form.Packed? {
      assert Span(form) == form.order * (form.order + 1) / 2 by {
        PackedSpan(form);
      }
    }
  }

  lemma PackedSpan(form: Form)
    requires form.Packed?
    ensures Span(form) == form.order * (form.order + 1) / 2
  {
  }

  /** A matrix view is created exactly for a well-formed descriptor whose span
      arithmetic fits and which is empty or aligned and backed; it then covers its span. */
  lemma {:induction false} MatrixIsCreatedExactly(data: int, form: Form, element: Element, backing: Backing)
    requires !form.Vector? && FieldsInRange(form) && IsElement(element) && IsBacking(backing) && InRange(UINT64, data)
    ensures var created, bytes := CreateMatrix(data, form, element, backing), Span(form) * element.size;
      && (created.Success? <==>
            && WellFormed(form) && SpanFits(form) && IsValid(backing)
            && (Span(form) > 0 ==>
                  && data != 0 && backing.address != 0 && data % element.alignment == 0
                  && bytes <= INT64.maximum && Backed(backing, data, data + bytes)))
      && (created.Success? ==> created.value == bytes)
  {
    hide CheckedMultiply, CheckedSpan, WellFormed, SpanFits;
    CheckedSpanIsExact(form);
    if CheckedSpan(form).Success? {
      SpanIsRepresentable(form);
      MultiplyIsExact(INT64, Span(form), element.size);
      if Span(form) > 0 {
        ScaledPlace(0, Span(form), element.size);
      }
      hide Span;
    }
  }

  /** Which check refuses a matrix view. */
  lemma {:induction false} MatrixIsRefusedExactly(data: int, form: Form, element: Element, backing: Backing)
    requires !form.Vector? && FieldsInRange(form) && IsElement(element) && IsBacking(backing) && InRange(UINT64, data)
    requires WellFormed(form) && SpanFits(form)
    ensures var created, bytes := CreateMatrix(data, form, element, backing), Span(form) * element.size;
      && (created == Failure(InvalidArgument) <==>
            || !IsValid(backing)
            || (Span(form) > 0 && data != 0 && backing.address != 0 && data % element.alignment != 0))
      && (created == Failure(Overflow) <==>
            && IsValid(backing) && Span(form) > 0 && data != 0 && backing.address != 0
            && data % element.alignment == 0
            && (bytes > INT64.maximum || data + bytes > UINT64.maximum
                || backing.address + backing.bytes > UINT64.maximum))
      && (created.Failure? ==> created.error in {InvalidArgument, Overflow, MemoryAccess})
  {
    hide CheckedMultiply, CheckedSpan, WellFormed, SpanFits;
    CheckedSpanIsExact(form);
    SpanIsRepresentable(form);
    MultiplyIsExact(INT64, Span(form), element.size);
    if Span(form) > 0 {
      ScaledPlace(0, Span(form), element.size);
    }
    hide Span;
  }

  /** Where the last element of a vector starts, in bytes after the first. */
  function LastByte(size: int, increment: int, element: Element): int {
    (size - 1) * increment * element.size
  }

  /** The bytes from the lowest element to the end of the highest. */
  function ReachBegin(data: int, size: int, increment: int, element: Element): int {
    if LastByte(size, increment, element) < 0 then data + LastByte(size, increment, element) else data
  }

  function ReachEnd(data: int, size: int, increment: int, element: Element): int {
    element.size + if LastByte(size, increment, element) < 0 then data else data + LastByte(size, increment, element)
  }

  /** A vector view is created exactly when it is empty, or aligned and backed
      from its lowest to its highest byte; it then covers exactly those bytes. */
  lemma {:induction false} VectorIsCreatedExactly(
      data: int, size: int, increment: int, element: Element, backing: Backing)
    requires InRange(INT64, size) && InRange(INT64, increment)
    requires IsElement(element) && IsBacking(backing) && InRange(UINT64, data)
    ensures var created := CreateVector(data, size, increment, element, backing);
      var begin, end := ReachBegin(data, size, increment, element), ReachEnd(data, size, increment, element);
      && (created.Success? <==>
            && size >= 0 && increment != 0 && IsValid(backing)
            && (size > 0 ==>
                  && data != 0 && backing.address != 0 && data % element.alignment == 0
                  && InRange(INT64, (size - 1) * increment) && InRange(INT64, LastByte(size, increment, element))
                  && LastByte(size, increment, element) != INT64.minimum && Backed(backing, begin, end)))
      && (created.Success? ==> created.value == if size == 0 then (0, 0) else (begin, end - begin))
  {
    hide CheckedMultiply;
    if size > 0 {
      MultiplyIsExact(INT64, size - 1, increment);
      if InRange(INT64, (size - 1) * increment) {
        MultiplyIsExact(INT64, (size - 1) * increment, element.size);
      }
    }
  }

  /** Which check refuses a vector view. */
  lemma {:induction false} VectorIsRefusedExactly(
      data: int, size: int, increment: int, element: Element, backing: Backing)
    requires InRange(INT64, size) && InRange(INT64, increment)
    requires IsElement(element) && IsBacking(backing) && InRange(UINT64, data)
    ensures var created := CreateVector(data, size, increment, element, backing);
      && (created == Failure(InvalidArgument) <==>
            || size < 0 || increment == 0 || !IsValid(backing)
            || (size > 0 && data != 0 && backing.address != 0 && data % element.alignment != 0))
      && (created == Failure(MemoryAccess) && size > 0 && data != 0 && backing.address != 0 ==>
            !Backed(backing, ReachBegin(data, size, increment, element), ReachEnd(data, size, increment, element)))
      && (size > 0 && increment != 0 && IsValid(backing) && (data == 0 || backing.address == 0) ==>
            created == Failure(MemoryAccess))
      && (created == Failure(Overflow) <==>
            && size > 0 && increment != 0 && IsValid(backing)
            && data != 0 && backing.address != 0 && data % element.alignment == 0
            && (|| !InRange(INT64, (size - 1) * increment) || !InRange(INT64, LastByte(size, increment, element))
                || LastByte(size, increment, element) == INT64.minimum
                || ReachBegin(data, size, increment, element) < 0
                || ReachEnd(data, size, increment, element) > UINT64.maximum
                || backing.address + backing.bytes > UINT64.maximum))
      && (created.Failure? ==> created.error in {InvalidArgument, Overflow, MemoryAccess})
  {
    hide CheckedMultiply;
    if size > 0 {
      MultiplyIsExact(INT64, size - 1, increment);
      if InRange(INT64, (size - 1) * increment) {
        MultiplyIsExact(INT64, (size - 1) * increment, element.size);
      }
    }
  }

  lemma {:induction false} CreatedVectorIsReachable(
      data: int, size: int, increment: int, element: Element, backing: Backing, index: int)
    requires InRange(INT64, size) && InRange(INT64, increment)
    requires IsElement(element) && IsBacking(backing) && InRange(UINT64, data)
    requires CreateVector(data, size, increment, element, backing).Success?
    requires 0 <= index < size
    ensures increment != 0
    ensures var first := data + index * increment * element.size;
      backing.address <= first && first + element.size <= backing.address + backing.bytes
  {
    hide CheckedMultiply;
    MultiplyIsExact(INT64, size - 1, increment);
    MultiplyIsExact(INT64, (size - 1) * increment, element.size);
    Between(index, size - 1, increment, element.size);
  }

  /** A position between the first and the last has its address between theirs. */
  lemma {:induction false} Between(index: int, last: int, increment: int, size: int)
    requires 0 <= index <= last
    ensures increment * size >= 0 ==> 0 <= index * increment * size <= last * increment * size
    ensures increment * size < 0 ==> last * increment * size <= index * increment * size <= 0
  {
    var unit := increment * size;
    assert index * increment * size == index * unit;
    assert last * increment * size == last * unit;
    SignOfProduct(index, unit);
    if unit >= 0 {
      MonotoneProduct(index, last, unit);
    } else {
      MonotoneProduct(index, last, -unit);
      assert index * -unit == -(index * unit) && last * -unit == -(last * unit);
    }
  }
}
