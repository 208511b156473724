/** Creating dense layouts with checked arithmetic, and what a created layout guarantees. */
module DenseLayouts {
  import opened Results
  import opened Checked
  import opened Sequences
  import opened MixedRadix
  import opened Layouts

  // ----- Facts about extents ------------------------------------------------

  /** Products of extents fit as long as no zero has been met. */
  ghost predicate ExtentsFit(extents: seq<int>) {
    forall n :: 0 <= n <= |extents| && AllAtLeast(1, extents[..n]) ==> Product(extents[..n]) <= INT64.maximum
  }

  /** The outcome of checking extents from left to right. */
  function ExtentsStatus(extents: seq<int>): Status {
    if extents == [] then Ok
    else if ExtentsStatus(Init(extents)) != Ok then ExtentsStatus(Init(extents))
    else if Last(extents) < 0 then Failed(Shape)
    else if AllAtLeast(1, extents) && Product(extents) > INT64.maximum then Failed(Overflow)
    else Ok
  }

  lemma {:induction false} ExtentsStatusIs(extents: seq<int>)
    ensures ExtentsStatus(extents) == Ok <==> AllAtLeast(0, extents) && ExtentsFit(extents)
  {
    hide Product;
    if extents == [] {
      assert Product([]) == 1 by { EmptyProduct(); }
    } else {
      var front := Init(extents);
      ExtentsStatusIs(front);
      assert extents[..|extents|] == extents;
      assert AllAtLeast(0, extents) <==> AllAtLeast(0, front) && 0 <= Last(extents);
      FitsStep(extents);
    }
  }

  lemma EmptyProduct()
    ensures Product([]) == 1
  {
  }

  lemma FitsStep(extents: seq<int>)
    requires extents != []
    ensures ExtentsFit(extents) <==>
            ExtentsFit(Init(extents)) && (AllAtLeast(1, extents) ==> Product(extents) <= INT64.maximum)
  {
    hide Product, AllAtLeast;
    var front := Init(extents);
    assert extents[..|extents|] == extents;
    if ExtentsFit(extents) {
      forall n | 0 <= n <= |front| && AllAtLeast(1, front[..n])
        ensures Product(front[..n]) <= INT64.maximum
      {
        assert front[..n] == extents[..n];
      }
    }
    if ExtentsFit(front) && (AllAtLeast(1, extents) ==> Product(extents) <= INT64.maximum) {
      forall n | 0 <= n <= |extents|
        ensures AllAtLeast(1, extents[..n]) ==> Product(extents[..n]) <= INT64.maximum
      {
        FrontPrefix(extents, n);
      }
    }
  }

  lemma FrontPrefix(extents: seq<int>, n: nat)
    requires extents != [] && n <= |extents|
    ensures extents[..n] == if n == |extents| then extents else Init(extents)[..n]
  {
  }

  /** A failed prefix decides. */
  lemma {:induction false} FailedPrefix(extents: seq<int>, d: nat)
    requires d <= |extents| && ExtentsStatus(extents[..d]) != Ok
    ensures ExtentsStatus(extents) == ExtentsStatus(extents[..d])
    decreases |extents| - d
  {
    if d == |extents| {
      assert extents[..d] == extents;
    } else {
      assert Init(extents[..d + 1]) == extents[..d];
      FailedPrefix(extents, d + 1);
    }
  }

  lemma ProductPrefix(extents: seq<int>, n: nat)
    requires n < |extents|
    ensures Product(extents[..n + 1]) == Product(extents[..n]) * extents[n]
  {
    assert Init(extents[..n + 1]) == extents[..n];
  }

  lemma {:induction false} ProductSign(extents: seq<int>)
    requires AllAtLeast(0, extents)
    ensures 0 <= Product(extents)
    ensures Product(extents) == 0 <==> !AllAtLeast(1, extents)
  {
    if extents == [] {
    } else {
      ProductSign(Init(extents));
      SignOfProduct(Product(Init(extents)), Last(extents));
      if Product(Init(extents)) > 0 && Last(extents) > 0 {
        MonotoneProduct(1, Product(Init(extents)), Last(extents));
      }
    }
  }

  method ValidateExtents(extents: seq<int>) returns (r: Result<int>)
    requires AllInt64(extents)
    ensures r.Success? <==> AllAtLeast(0, extents) && ExtentsFit(extents)
    ensures r == if ExtentsStatus(extents) == Ok then Success(Product(extents))
                 else Failure(ExtentsStatus(extents).code)
  {
    ExtentsStatusIs(extents);
    var hasZero := false;
    var logicalSize := 1;
    for d := 0 to |extents|
      invariant AllAtLeast(0, extents[..d])
      invariant hasZero <==> !AllAtLeast(1, extents[..d])
      invariant !hasZero ==> logicalSize == Product(extents[..d]) && InRange(INT64, logicalSize)
      invariant forall n :: 0 <= n <= d && AllAtLeast(1, extents[..n]) ==> Product(extents[..n]) <= INT64.maximum
      invariant ExtentsStatus(extents[..d]) == Ok
    {
      assert Init(extents[..d + 1]) == extents[..d];
      if extents[d] < 0 {
        FailedPrefix(extents, d + 1);
        return Failure(Shape);
      }
      PrefixAtLeast(0, extents, d);
      PrefixAtLeast(1, extents, d);
      ProductPrefix(extents, d);
      hasZero := hasZero || extents[d] == 0;
      if !hasZero {
        ProductSign(extents[..d + 1]);
        MultiplyIsExact(INT64, logicalSize, extents[d]);
        var next := CheckedMultiply(INT64, logicalSize, extents[d]);
        if next.Failure? {
          assert AllAtLeast(1, extents[..d + 1]) && Product(extents[..d + 1]) > INT64.maximum;
          FailedPrefix(extents, d + 1);
          return Failure(Overflow);
        }
        logicalSize := next.value;
      }
    }
    assert extents[..|extents|] == extents;
    ProductSign(extents);
    r := Success(if hasZero then 0 else logicalSize);
  }

  lemma PrefixAtLeast(low: int, s: seq<int>, d: nat)
    requires d < |s|
    ensures AllAtLeast(low, s[..d + 1]) <==> AllAtLeast(low, s[..d]) && low <= s[d]
  {
    if AllAtLeast(low, s[..d + 1]) {
      assert s[..d + 1][d] == s[d];
      assert forall i :: 0 <= i < d ==> s[..d][i] == s[..d + 1][i];
    }
  }

  // ----- The uniqueness proof -----------------------------------------------

  /** Inserting an element no smaller than the rest keeps it last. */
  lemma InsertAtEnd(strides: seq<int>, sorted: seq<nat>, value: nat)
    requires AreDimensions(sorted, |strides|) && value < |strides|
    requires sorted == [] || strides[Last(sorted)] <= strides[value]
    ensures InsertByStride(strides, sorted, value) == sorted + [value]
  {
  }

  /** Shifting one larger element right is one recursive step of the insertion. */
  lemma {:induction false} InsertShifts(strides: seq<int>, sorted: seq<nat>, value: nat, k: nat)
    requires AreDimensions(sorted, |strides|) && value < |strides| && k <= |sorted|
    requires forall i :: k <= i < |sorted| ==> strides[value] < strides[sorted[i]]
    ensures InsertByStride(strides, sorted, value) == InsertByStride(strides, sorted[..k], value) + sorted[k..]
  {
    if k == |sorted| {
      assert sorted[..k] == sorted;
    } else {
      InsertShifts(strides, Init(sorted), value, k);
      assert Init(sorted)[..k] == sorted[..k] && Init(sorted)[k..] + [Last(sorted)] == sorted[k..];
    }
  }

  /** Inner loop of the insertion sort: shift the larger elements right, then drop the value in. */
  method InsertDimension(dimensions: array<nat>, index: nat, strides: seq<int>)
    requires index < dimensions.Length && AreDimensions(dimensions[..index + 1], |strides|)
    modifies dimensions
    ensures AreDimensions(old(dimensions[..index]), |strides|) && old(dimensions[index]) < |strides|
    ensures dimensions[..index + 1] == InsertByStride(strides, old(dimensions[..index]), old(dimensions[index]))
    ensures dimensions[index + 1..] == old(dimensions[index + 1..])
  {
    hide InsertByStride;
    ghost var sorted := dimensions[..index];
    assert forall i :: 0 <= i < index ==> dimensions[..index + 1][i] == sorted[i];
    var value := dimensions[index];
    assert dimensions[..index + 1][index] == value;
    var insertion := index;
    while insertion > 0 && strides[value] < strides[dimensions[insertion - 1]]
      invariant 0 <= insertion <= index
      invariant forall i :: 0 <= i < insertion ==> dimensions[i] == sorted[i]
      invariant forall i :: insertion < i <= index ==> dimensions[i] == sorted[i - 1]
      invariant dimensions[index + 1..] == old(dimensions[index + 1..])
      invariant forall i :: insertion <= i < index ==> strides[value] < strides[sorted[i]]
    {
      dimensions[insertion] := dimensions[insertion - 1];
      insertion := insertion - 1;
    }
    dimensions[insertion] := value;
    InsertShifts(strides, sorted, value, insertion);
    InsertAtEnd(strides, sorted[..insertion], value);
    assert dimensions[..index + 1] == sorted[..insertion] + [value] + sorted[insertion..];
  }

  /** The in-place insertion sort is the functional one. */
  method SortDimensions(dimensions: array<nat>, count: nat, strides: seq<int>)
    requires count <= dimensions.Length && AreDimensions(dimensions[..count], |strides|)
    modifies dimensions
    ensures dimensions[..count] == SortByStride(strides, old(dimensions[..count]))
  {
    hide InsertByStride;
    if count == 0 {
      return;
    }
    ghost var original := dimensions[..count];
    SortOne(strides, original[0]);
    assert original[..1] == [original[0]];
    for index := 1 to count
      invariant dimensions[..index] == SortByStride(strides, original[..index])
      invariant forall i :: index <= i < count ==> dimensions[i] == original[i]
    {
      assert forall i :: 0 <= i < index ==> dimensions[i] == dimensions[..index][i];
      InsertDimension(dimensions, index, strides);
      assert Init(original[..index + 1]) == original[..index] && Last(original[..index + 1]) == original[index];
    }
    assert original[..count] == original;
  }

  lemma SortOne(strides: seq<int>, d: nat)
    requires d < |strides|
    ensures SortByStride(strides, [d]) == [d]
  {
    assert Init([d]) == [];
    assert SortByStride(strides, Init([d])) == [];
  }

  /** Every partial reach is representable. */
  ghost predicate ReachFits(axes: seq<Axis>) {
    forall k :: 0 <= k <= |axes| ==> Covered(axes[..k]) <= INT64.maximum
  }

  lemma CoveredPrefix(axes: seq<Axis>, k: nat)
    requires k < |axes|
    ensures Covered(axes[..k + 1]) == Covered(axes[..k]) + (axes[k].extent - 1) * axes[k].stride
  {
    assert Init(axes[..k + 1]) == axes[..k];
  }

  /** Collects the dimensions that vary and sorts them by stride. */
  method SortActive(extents: seq<int>, strides: seq<int>) returns (dimensions: array<nat>, activeCount: nat)
    requires |strides| == |extents|
    ensures activeCount <= dimensions.Length
    ensures dimensions[..activeCount] == SortedActive(extents, strides)
  {
    var rank := |extents|;
    dimensions := new nat[rank];
    activeCount := 0;
    for dimension := 0 to rank
      invariant activeCount <= dimension
      invariant dimensions[..activeCount] == ActiveUpTo(extents, dimension)
    {
      ActiveAreDimensions(extents, dimension);
      if extents[dimension] > 1 {
        dimensions[activeCount] := dimension;
        activeCount := activeCount + 1;
      }
    }
    ActiveAreDimensions(extents, rank);
    SortDimensions(dimensions, activeCount, strides);
  }

  /** Scans the active dimensions by increasing stride; each must clear what the
      earlier ones reach. */
  method ProveUnique(extents: seq<int>, strides: seq<int>) returns (unique: bool)
    requires |strides| == |extents| && AllInt64(extents) && AllInt64(strides) && AllAtLeast(0, strides)
    ensures unique <==> Separated(SortedAxes(extents, strides)) && ReachFits(SortedAxes(extents, strides))
  {
    hide SortByStride, Covered;
    var dimensions, activeCount := SortActive(extents, strides);
    ghost var sorted := SortedActive(extents, strides);
    ghost var axes := SortedAxes(extents, strides);
    SortedAxesAreAxes(extents, strides);
    EmptyCovered(axes);
    var coveredSpan := 1;
    for index := 0 to activeCount
      invariant dimensions[..activeCount] == sorted
      invariant coveredSpan == Covered(axes[..index]) && 1 <= coveredSpan <= INT64.maximum
      invariant forall k :: 0 <= k <= index ==> Covered(axes[..k]) <= INT64.maximum
      invariant forall k :: 0 <= k < index ==> Covered(axes[..k]) <= axes[k].stride
    {
      assert dimensions[index] == dimensions[..activeCount][index] == sorted[index];
      var dimension := dimensions[index];
      assert axes[index] == Axis(extents[dimension], strides[dimension]);
      if strides[dimension] < coveredSpan {
        return false;
      }
      CoveredPrefix(axes, index);
      SignOfProduct(extents[dimension] - 1, strides[dimension]);
      MultiplyIsExact(INT64, extents[dimension] - 1, strides[dimension]);
      var contribution := CheckedMultiply(INT64, extents[dimension] - 1, strides[dimension]);
      if contribution.Failure? {
        return false;
      }
      AddIsExact(INT64, coveredSpan, contribution.value);
      var next := CheckedAdd(INT64, coveredSpan, contribution.value);
      if next.Failure? {
        return false;
      }
      coveredSpan := next.value;
    }
    return true;
  }

  lemma EmptyCovered(axes: seq<Axis>)
    ensures Covered(axes[..0]) == 1
  {
  }

  // ----- Creation -----------------------------------------------------------

  /** The storage span of a layout: nothing when empty, else one past the largest offset. */
  function SpanOf(extents: seq<int>, strides: seq<int>): int
    requires |strides| == |extents|
  {
    if Product(extents) == 0 then 0 else 1 + Dot(Corner(extents), strides)
  }

  /** What every created layout satisfies. */
  ghost predicate WellMade(layout: DenseLayout) {
    && |layout.strides| == |layout.extents|
    && AllInt64(layout.extents) && AllAtLeast(0, layout.extents) && ExtentsFit(layout.extents)
    && AllInt64(layout.strides) && AllAtLeast(0, layout.strides)
    && layout.logicalSize == Product(layout.extents)
    && layout.requiredSpan == SpanOf(layout.extents, layout.strides) <= INT64.maximum
    && (layout.unique <==> layout.logicalSize == 0 || Separated(SortedAxes(layout.extents, layout.strides)))
    && (layout.exhaustive <==> layout.unique && layout.requiredSpan == layout.logicalSize)
  }

  lemma {:induction false} DotBounds(extents: seq<int>, strides: seq<int>, coordinates: seq<int>)
    requires |strides| == |extents| && AllAtLeast(0, strides) && InExtents(extents, coordinates)
    ensures 0 <= Dot(coordinates, strides) <= Dot(Corner(extents), strides)
  {
    if extents == [] {
    } else {
      assert Init(Corner(extents)) == Corner(Init(extents));
      DotBounds(Init(extents), Init(strides), Init(coordinates));
      MonotoneProduct(0, Last(coordinates), Last(strides));
      MonotoneProduct(Last(coordinates), Last(extents) - 1, Last(strides));
    }
  }

  lemma {:induction false} DotPrefixBounded(extents: seq<int>, strides: seq<int>, n: nat)
    requires |strides| == |extents| && AllAtLeast(0, strides) && AllAtLeast(1, extents) && n <= |extents|
    ensures Corner(extents)[..n] == Corner(extents[..n])
    ensures 0 <= Dot(Corner(extents)[..n], strides[..n]) <= Dot(Corner(extents), strides)
    decreases |extents| - n
  {
    var corner := Corner(extents);
    DotBounds(extents[..n], strides[..n], Corner(extents[..n]));
    if n < |extents| {
      DotPrefixBounded(extents, strides, n + 1);
      DotPrefix(corner, strides, n);
      SignOfProduct(corner[n], strides[n]);
    } else {
      assert corner[..n] == corner && strides[..n] == strides;
    }
  }

  /** The reach of the sorted axes never exceeds the validated span. */
  lemma {:induction false} ReachWithinSpan(axes: seq<Axis>, k: nat)
    requires AreAxes(axes) && k <= |axes|
    ensures Covered(axes[..k]) <= Covered(axes)
    decreases |axes| - k
  {
    if k < |axes| {
      ReachWithinSpan(axes, k + 1);
      CoveredPrefix(axes, k);
      SignOfProduct(axes[k].extent - 1, axes[k].stride);
    } else {
      assert axes[..k] == axes;
    }
  }

  lemma SortedAxesAreAxes(extents: seq<int>, strides: seq<int>)
    requires |strides| == |extents| && AllAtLeast(0, strides)
    ensures AreAxes(SortedAxes(extents, strides)) && SortedByStride(SortedAxes(extents, strides))
    ensures forall i :: 0 <= i < |SortedAxes(extents, strides)| ==> SortedAxes(extents, strides)[i].extent > 1
  {
    SortedActiveIs(extents, strides);
    var sorted := SortedActive(extents, strides);
    hide SortedActive;
    forall i | 0 <= i < |sorted|
      ensures 0 <= sorted[i] < |extents| && extents[sorted[i]] > 1
    {
      assert sorted[i] in sorted;
    }
  }

  lemma SpanMakesReachFit(extents: seq<int>, strides: seq<int>)
    requires |strides| == |extents| && AllAtLeast(0, strides) && AllAtLeast(1, extents)
    requires 1 + Dot(Corner(extents), strides) <= INT64.maximum
    ensures ReachFits(SortedAxes(extents, strides))
  {
    hide Covered, Dot;
    SortedAxesAreAxes(extents, strides);
    AxesCarryLayout(extents, strides, Corner(extents));
    forall k | 0 <= k <= |SortedAxes(extents, strides)|
      ensures Covered(SortedAxes(extents, strides)[..k]) <= INT64.maximum
    {
      ReachWithinSpan(SortedAxes(extents, strides), k);
    }
  }

  /** The checked loop that finds one past the largest offset. */
  method CheckedSpan(extents: seq<int>, strides: seq<int>) returns (r: Result<int>)
    requires |strides| == |extents| && AllInt64(extents) && AllInt64(strides)
    requires AllAtLeast(1, extents) && AllAtLeast(0, strides)
    ensures r == Exactly(INT64, 1 + Dot(Corner(extents), strides))
  {
    hide Dot;
    ghost var corner := Corner(extents);
    DotPrefixBounded(extents, strides, |extents|);
    assert corner[..|extents|] == corner && strides[..|extents|] == strides;
    var maximumOffset := 0;
    EmptyDot(corner, strides);
    for d := 0 to |extents|
      invariant maximumOffset == Dot(corner[..d], strides[..d]) && InRange(INT64, maximumOffset)
    {
      DotPrefix(corner, strides, d);
      DotPrefixBounded(extents, strides, d);
      DotPrefixBounded(extents, strides, d + 1);
      SignOfProduct(corner[d], strides[d]);
      MultiplyIsExact(INT64, extents[d] - 1, strides[d]);
      var term := CheckedMultiply(INT64, extents[d] - 1, strides[d]);
      if term.Failure? {
        return Failure(Overflow);
      }
      AddIsExact(INT64, maximumOffset, term.value);
      var next := CheckedAdd(INT64, maximumOffset, term.value);
      if next.Failure? {
        return Failure(Overflow);
      }
      maximumOffset := next.value;
    }
    AddIsExact(INT64, maximumOffset, 1);
    r := CheckedAdd(INT64, maximumOffset, 1);
  }

  lemma EmptyDot(coordinates: seq<int>, strides: seq<int>)
    requires |coordinates| == |strides|
    ensures Dot(coordinates[..0], strides[..0]) == 0
  {
  }

  /** What a refused creation reports when nothing but sizes can be wrong. */
  function CreationError(extents: seq<int>): ErrorCode {
    if ExtentsStatus(extents) != Ok then ExtentsStatus(extents).code else Overflow
  }

  method CreateValidated(extents: seq<int>, strides: seq<int>, kind: Kind) returns (r: Result<DenseLayout>)
    requires |strides| == |extents| && AllInt64(extents) && AllInt64(strides) && AllAtLeast(0, strides)
    ensures r.Success? <==>
              && AllAtLeast(0, extents) && ExtentsFit(extents)
              && SpanOf(extents, strides) <= INT64.maximum
    ensures r.Success? ==>
              && WellMade(r.value)
              && r.value.extents == extents && r.value.strides == strides && r.value.kind == kind
    ensures r.Failure? ==> r.error == CreationError(extents)
  {
    hide Dot, SortedAxes, Separated, ReachFits, Product;
    var logicalSize :- ValidateExtents(extents);
    ProductSign(extents);
    var requiredSpan := 0;
    if logicalSize != 0 {
      DotBounds(extents, strides, Corner(extents));
      var span :- CheckedSpan(extents, strides);
      requiredSpan := span;
      SpanMakesReachFit(extents, strides);
    }
    var unique := logicalSize == 0;
    if !unique {
      unique := ProveUnique(extents, strides);
    }
    var exhaustive := unique && requiredSpan == logicalSize;
    r := Success(DenseLayout(extents, strides, logicalSize, requiredSpan, unique, exhaustive, kind));
  }

  method CreateStride(extents: seq<int>, strides: seq<int>) returns (r: Result<DenseLayout>)
    requires |strides| == |extents| && AllInt64(extents) && AllInt64(strides)
    ensures r.Success? <==>
              && AllAtLeast(0, extents) && ExtentsFit(extents) && AllAtLeast(0, strides)
              && SpanOf(extents, strides) <= INT64.maximum
    ensures r.Success? ==>
              && WellMade(r.value)
              && r.value.extents == extents && r.value.strides == strides && r.value.kind == StrideKind
    ensures r.Failure? ==>
              r.error == if ExtentsStatus(extents) == Ok && !AllAtLeast(0, strides) then InvalidArgument
                         else CreationError(extents)
  {
    var logicalSize :- ValidateExtents(extents);
    for d := 0 to |strides|
      invariant AllAtLeast(0, strides[..d])
    {
      if strides[d] < 0 {
        return Failure(InvalidArgument);
      }
      PrefixAtLeast(0, strides, d);
    }
    assert strides[..|strides|] == strides;
    r := CreateValidated(extents, strides, StrideKind);
  }

  // ----- Offsets ------------------------------------------------------------

  /** One more term of an offset; only an empty layout can make it overflow. */
  lemma OffsetStep(layout: DenseLayout, coordinates: seq<int>, d: nat)
    requires WellMade(layout) && |coordinates| == |layout.extents| && d < |coordinates|
    requires InExtents(layout.extents[..d], coordinates[..d]) && 0 <= coordinates[d] < layout.extents[d]
    ensures var next := Dot(coordinates[..d + 1], layout.strides[..d + 1]);
      && next == Dot(coordinates[..d], layout.strides[..d]) + coordinates[d] * layout.strides[d]
      && 0 <= Dot(coordinates[..d], layout.strides[..d]) && 0 <= coordinates[d] * layout.strides[d]
      && (layout.logicalSize > 0 ==> next <= INT64.maximum)
    ensures layout.logicalSize <= 0 ==> !InExtents(layout.extents, coordinates)
  {
    hide Dot, Separated, SortedAxes, ExtentsFit, Product;
    var extents, strides := layout.extents, layout.strides;
    ProductSign(extents);
    InExtentsPrefix(extents, coordinates, d);
    DotPrefix(coordinates, strides, d);
    DotBounds(extents[..d], strides[..d], coordinates[..d]);
    DotBounds(extents[..d + 1], strides[..d + 1], coordinates[..d + 1]);
    SignOfProduct(coordinates[d], strides[d]);
    if layout.logicalSize > 0 {
      DotPrefixBounded(extents, strides, d + 1);
    } else if InExtents(extents, coordinates) {
      InExtentsPositive(extents, coordinates);
    }
  }

  /** The outcome of adding up an offset from left to right. */
  function OffsetStatus(extents: seq<int>, strides: seq<int>, coordinates: seq<int>): Status
    requires |coordinates| == |extents| == |strides|
  {
    if extents == [] then Ok
    else
      var before := OffsetStatus(Init(extents), Init(strides), Init(coordinates));
      if before != Ok then before
      else if !(0 <= Last(coordinates) < Last(extents)) then Failed(Index)
      else if Dot(coordinates, strides) > INT64.maximum then Failed(Overflow)
      else Ok
  }

  /** The first failing prefix decides. */
  lemma {:induction false} FailedOffset(extents: seq<int>, strides: seq<int>, coordinates: seq<int>, d: nat)
    requires |coordinates| == |extents| == |strides| && d <= |extents|
    requires OffsetStatus(extents[..d], strides[..d], coordinates[..d]) != Ok
    ensures OffsetStatus(extents, strides, coordinates) == OffsetStatus(extents[..d], strides[..d], coordinates[..d])
    decreases |extents| - d
  {
    if d == |extents| {
      assert extents[..d] == extents && strides[..d] == strides && coordinates[..d] == coordinates;
    } else {
      OffsetPrefix(extents, strides, coordinates, d);
      FailedOffset(extents, strides, coordinates, d + 1);
    }
  }

  lemma OffsetPrefix(extents: seq<int>, strides: seq<int>, coordinates: seq<int>, d: nat)
    requires |coordinates| == |extents| == |strides| && d < |extents|
    ensures OffsetStatus(extents[..d + 1], strides[..d + 1], coordinates[..d + 1])
            == var before := OffsetStatus(extents[..d], strides[..d], coordinates[..d]);
               if before != Ok then before
               else if !(0 <= coordinates[d] < extents[d]) then Failed(Index)
               else if Dot(coordinates[..d + 1], strides[..d + 1]) > INT64.maximum then Failed(Overflow)
               else Ok
  {
    assert Init(extents[..d + 1]) == extents[..d] && Init(strides[..d + 1]) == strides[..d];
    assert Init(coordinates[..d + 1]) == coordinates[..d];
  }

  lemma NoOffset(extents: seq<int>, strides: seq<int>, coordinates: seq<int>)
    requires |coordinates| == |extents| == |strides|
    ensures OffsetStatus(extents[..0], strides[..0], coordinates[..0]) == Ok
  {
  }

  lemma StepDecides(extents: seq<int>, strides: seq<int>, coordinates: seq<int>, d: nat)
    requires |coordinates| == |extents| == |strides| && d < |extents|
    requires OffsetStatus(extents[..d], strides[..d], coordinates[..d]) == Ok
    ensures var next := OffsetStatus(extents[..d + 1], strides[..d + 1], coordinates[..d + 1]);
      && next == (if !(0 <= coordinates[d] < extents[d]) then Failed(Index)
                  else if Dot(coordinates[..d + 1], strides[..d + 1]) > INT64.maximum then Failed(Overflow)
                  else Ok)
      && (next != Ok ==> OffsetStatus(extents, strides, coordinates) == next)
  {
    OffsetPrefix(extents, strides, coordinates, d);
    hide OffsetStatus;
    if OffsetStatus(extents[..d + 1], strides[..d + 1], coordinates[..d + 1]) != Ok {
      FailedOffset(extents, strides, coordinates, d + 1);
    }
  }

  /** In-range coordinates always get their exact offset; a tuple out of range is refused. */
  method Offset(layout: DenseLayout, coordinates: seq<int>) returns (r: Result<int>)
    requires WellMade(layout) && |coordinates| == |layout.extents| && AllInt64(coordinates)
    ensures InExtents(layout.extents, coordinates) ==> r == Success(Dot(coordinates, layout.strides))
    ensures !InExtents(layout.extents, coordinates) ==>
      && OffsetStatus(layout.extents, layout.strides, coordinates) != Ok
      && r == Failure(OffsetStatus(layout.extents, layout.strides, coordinates).code)
    ensures !InExtents(layout.extents, coordinates) && layout.logicalSize > 0 ==> r == Failure(Index)
  {
    hide Dot, Separated, SortedAxes, ExtentsFit, Product, Corner, CheckedMultiply, CheckedAdd, OffsetStatus;
    var extents, strides := layout.extents, layout.strides;
    EmptyDot(coordinates, strides);
    NoOffset(extents, strides, coordinates);
    var offset := 0;
    for d := 0 to |extents|
      invariant InExtents(extents[..d], coordinates[..d])
      invariant offset == Dot(coordinates[..d], strides[..d]) && InRange(INT64, offset)
      invariant OffsetStatus(extents[..d], strides[..d], coordinates[..d]) == Ok
    {
      StepDecides(extents, strides, coordinates, d);
      if coordinates[d] < 0 || coordinates[d] >= extents[d] {
        return Failure(Index);
      }
      OffsetStep(layout, coordinates, d);
      InExtentsPrefix(extents, coordinates, d);
      MultiplyIsExact(INT64, coordinates[d], strides[d]);
      var term := CheckedMultiply(INT64, coordinates[d], strides[d]);
      if term.Failure? {
        return Failure(Overflow);
      }
      AddIsExact(INT64, offset, term.value);
      var next := CheckedAdd(INT64, offset, term.value);
      if next.Failure? {
        return Failure(Overflow);
      }
      offset := next.value;
    }
    assert extents[..|extents|] == extents && strides[..|extents|] == strides;
    assert coordinates[..|extents|] == coordinates;
    assert InExtents(extents, coordinates);
    NonNegativeOffset(layout, coordinates);
    r := CheckedCast(UINT64, offset);
  }

  lemma NonNegativeOffset(layout: DenseLayout, coordinates: seq<int>)
    requires WellMade(layout) && InExtents(layout.extents, coordinates)
    ensures 0 <= Dot(coordinates, layout.strides)
  {
    DotBounds(layout.extents, layout.strides, coordinates);
  }

  lemma InExtentsPrefix(extents: seq<int>, coordinates: seq<int>, d: nat)
    requires d < |extents| == |coordinates| && InExtents(extents[..d], coordinates[..d])
    requires 0 <= coordinates[d] < extents[d]
    ensures InExtents(extents[..d + 1], coordinates[..d + 1])
  {
    var e, c := extents[..d + 1], coordinates[..d + 1];
    forall i | 0 <= i < |e|
      ensures 0 <= c[i] < e[i]
    {
      if i < d {
        assert 0 <= coordinates[..d][i] < extents[..d][i];
      }
    }
  }

  lemma InExtentsPositive(extents: seq<int>, coordinates: seq<int>)
    requires InExtents(extents, coordinates)
    ensures AllAtLeast(1, extents)
  {
    forall d | 0 <= d < |extents|
      ensures 1 <= extents[d]
    {
      assert 0 <= coordinates[d] < extents[d];
    }
  }
}
