/** Dense views and their subviews. */
module Views {
  import opened Results
  import opened Checked
  import opened Sequences
  import opened MixedRadix
  import opened Layouts
  import opened DenseLayouts
  import Storage

  /** A mapping placed at an element address; address zero is the null pointer. */
  datatype DenseView = DenseView(data: int, mapping: DenseLayout, space: Storage.MemorySpace)

  ghost predicate ValidView(view: DenseView) {
    WellMade(view.mapping) && view.mapping.unique
  }

  function CreateView(
      data: int, mapping: DenseLayout, space: Storage.MemorySpace, elementSize: int): Result<DenseView> {
    if mapping.requiredSpan != 0 && data == 0 then Failure(InvalidArgument)
    else if !mapping.unique then Failure(InvalidArgument)
    else
      var byteSpan :- CheckedMultiply(UINT64, mapping.requiredSpan, elementSize);
      Success(DenseView(data, mapping, space))
  }

  /** A view created over a created layout is valid: its mapping is unique. */
  lemma CreatedViewIsValid(data: int, mapping: DenseLayout, space: Storage.MemorySpace, elementSize: int)
    requires WellMade(mapping) && CreateView(data, mapping, space, elementSize).Success?
    ensures var view := CreateView(data, mapping, space, elementSize).value;
      ValidView(view) && view == DenseView(data, mapping, space) && (mapping.requiredSpan != 0 ==> data != 0)
  {
  }

  /** Exactly when a view over a created layout is refused. */
  lemma ViewIsRefusedExactly(data: int, mapping: DenseLayout, space: Storage.MemorySpace, elementSize: int)
    requires WellMade(mapping) && InRange(UINT64, mapping.requiredSpan) && InRange(UINT64, elementSize)
    ensures CreateView(data, mapping, space, elementSize)
            == if (mapping.requiredSpan != 0 && data == 0) || !mapping.unique then Failure(InvalidArgument)
               else if mapping.requiredSpan * elementSize > UINT64.maximum then Failure(Overflow)
               else Success(DenseView(data, mapping, space))
  {
    hide WellMade, CheckedMultiply;
    MultiplyIsExact(UINT64, mapping.requiredSpan, elementSize);
    SignOfProduct(mapping.requiredSpan, elementSize);
  }

  /** Element access on the host. */
  method At(view: DenseView, coordinates: seq<int>) returns (r: Result<int>)
    requires ValidView(view) && |coordinates| == |view.mapping.extents| && AllInt64(coordinates)
    ensures r.Success? <==>
              && (view.space == Storage.Host || view.space == Storage.PinnedHost)
              && InExtents(view.mapping.extents, coordinates)
    ensures r.Success? ==> r.value == view.data + Dot(coordinates, view.mapping.strides)
    ensures r.Failure? ==>
      var status := OffsetStatus(view.mapping.extents, view.mapping.strides, coordinates);
      if view.space != Storage.Host && view.space != Storage.PinnedHost then r.error == MemoryAccess
      else status != Ok && r.error == status.code
  {
    hide OffsetStatus;
    if view.space != Storage.Host && view.space != Storage.PinnedHost {
      return Failure(MemoryAccess);
    }
    var offset :- Offset(view.mapping, coordinates);
    return Success(view.data + offset);
  }

  // ----- The uniqueness proof is monotone in the extents ---------------------

  predicate Shrinks(small: seq<int>, extents: seq<int>) {
    |small| == |extents| && forall d :: 0 <= d < |extents| ==> small[d] <= extents[d]
  }

  /** Dimensions that still vary after shrinking. */
  function Keep(small: seq<int>, dimensions: seq<nat>): seq<nat>
    requires AreDimensions(dimensions, |small|)
  {
    if dimensions == [] then []
    else Keep(small, Init(dimensions)) + if small[Last(dimensions)] > 1 then [Last(dimensions)] else []
  }

  lemma {:induction false} KeptDimensions(small: seq<int>, dimensions: seq<nat>)
    requires AreDimensions(dimensions, |small|)
    ensures AreDimensions(Keep(small, dimensions), |small|)
    ensures forall d :: d in Keep(small, dimensions) ==> d in dimensions
  {
    if dimensions == [] {
    } else {
      KeptDimensions(small, Init(dimensions));
    }
  }

  lemma KeepAppend(small: seq<int>, dimensions: seq<nat>, d: nat)
    requires AreDimensions(dimensions, |small|) && d < |small|
    ensures Keep(small, dimensions + [d])
            == if small[d] > 1 then Keep(small, dimensions) + [d] else Keep(small, dimensions)
  {
    assert Init(dimensions + [d]) == dimensions;
    assert Keep(small, dimensions) + [] == Keep(small, dimensions);
  }

  lemma {:induction false} InsertKeep(small: seq<int>, strides: seq<int>, sorted: seq<nat>, value: nat)
    requires |strides| == |small| && AreDimensions(sorted, |small|) && value < |small| && StridesAscend(strides, sorted)
    ensures AreDimensions(InsertByStride(strides, sorted, value), |small|)
    ensures AreDimensions(Keep(small, sorted), |small|)
    ensures Keep(small, InsertByStride(strides, sorted, value))
            == if small[value] > 1 then InsertByStride(strides, Keep(small, sorted), value) else Keep(small, sorted)
  {
    hide Keep;
    InsertedDimensions(strides, sorted, value);
    KeptDimensions(small, sorted);
    var kept := Keep(small, sorted);
    if sorted != [] && strides[value] < strides[Last(sorted)] {
      var front := Init(sorted);
      assert sorted == front + [Last(sorted)];
      InsertKeep(small, strides, front, value);
      InsertedDimensions(strides, front, value);
      KeepAppend(small, front, Last(sorted));
      KeepAppend(small, InsertByStride(strides, front, value), Last(sorted));
      if small[Last(sorted)] > 1 {
        InsertBeforeLast(strides, Keep(small, front), Last(sorted), value);
      }
    } else {
      KeepAppend(small, sorted, value);
      if kept != [] {
        assert Last(kept) in kept;
        var i :| 0 <= i < |sorted| && sorted[i] == Last(kept);
        assert strides[sorted[i]] <= strides[Last(sorted)];
      }
      InsertAtEnd(strides, kept, value);
    }
  }

  lemma InsertBeforeLast(strides: seq<int>, front: seq<nat>, last: nat, value: nat)
    requires AreDimensions(front, |strides|) && last < |strides| && value < |strides| && strides[value] < strides[last]
    ensures InsertByStride(strides, front + [last], value) == InsertByStride(strides, front, value) + [last]
  {
    assert Init(front + [last]) == front;
  }

  lemma {:induction false} SortKeep(small: seq<int>, strides: seq<int>, dimensions: seq<nat>)
    requires |strides| == |small| && AreDimensions(dimensions, |small|) && Distinct(dimensions)
    ensures AreDimensions(Keep(small, dimensions), |small|)
    ensures SortByStride(strides, Keep(small, dimensions)) == Keep(small, SortByStride(strides, dimensions))
  {
    hide InsertByStride;
    KeptDimensions(small, dimensions);
    if dimensions == [] {
    } else {
      var front, last := Init(dimensions), Last(dimensions);
      assert dimensions == front + [last];
      SortKeep(small, strides, front);
      SortSorts(strides, front);
      InsertKeep(small, strides, SortByStride(strides, front), last);
      KeepAppend(small, front, last);
      assert Init(Keep(small, front) + [last]) == Keep(small, front);
    }
  }

  lemma {:induction false} ActiveKeep(small: seq<int>, extents: seq<int>, n: nat)
    requires Shrinks(small, extents) && n <= |extents|
    ensures AreDimensions(ActiveUpTo(extents, n), |small|)
    ensures ActiveUpTo(small, n) == Keep(small, ActiveUpTo(extents, n))
  {
    ActiveAreDimensions(extents, n);
    hide ActiveUpTo, Keep;
    if n == 0 {
      NothingActive(small);
      NothingActive(extents);
    } else {
      var d := n - 1;
      ActiveKeep(small, extents, d);
      ActiveStep(small, d);
      ActiveStep(extents, d);
      assert small[d] <= extents[d];
      hide Shrinks;
      if extents[d] > 1 {
        KeepAppend(small, ActiveUpTo(extents, d), d);
      }
    }
  }

  lemma NothingActive(extents: seq<int>)
    ensures ActiveUpTo(extents, 0) == [] && Keep(extents, []) == []
  {
  }

  lemma ActiveStep(extents: seq<int>, d: nat)
    requires d < |extents|
    ensures ActiveUpTo(extents, d + 1)
            == if extents[d] > 1 then ActiveUpTo(extents, d) + [d] else ActiveUpTo(extents, d)
  {
    assert ActiveUpTo(extents, d) + [] == ActiveUpTo(extents, d);
  }

  lemma SortedActiveKeep(small: seq<int>, extents: seq<int>, strides: seq<int>)
    requires Shrinks(small, extents) && |strides| == |extents|
    ensures SortedActive(small, strides) == Keep(small, SortedActive(extents, strides))
  {
    ActiveKeep(small, extents, |extents|);
    ActiveAreDimensions(extents, |extents|);
    ActiveDistinct(extents, |extents|);
    SortKeep(small, strides, ActiveUpTo(extents, |extents|));
  }

  /** Shrinking extents and dropping constant dimensions keeps axes separated. */
  lemma {:induction false} KeepSeparated(small: seq<int>, extents: seq<int>, strides: seq<int>, dimensions: seq<nat>)
    requires Shrinks(small, extents) && |strides| == |extents| && AreDimensions(dimensions, |extents|)
    requires AllAtLeast(1, small) && AllAtLeast(0, strides)
    requires Separated(AxesOf(extents, strides, dimensions))
    ensures AreDimensions(Keep(small, dimensions), |small|)
    ensures Separated(AxesOf(small, strides, Keep(small, dimensions)))
    ensures Covered(AxesOf(small, strides, Keep(small, dimensions))) <= Covered(AxesOf(extents, strides, dimensions))
  {
    hide Separated, Covered, Keep;
    KeptDimensions(small, dimensions);
    if dimensions == [] {
      EmptyKeep(small, extents, strides);
    } else {
      var front, d := Init(dimensions), Last(dimensions);
      assert dimensions == front + [d];
      AxesInit(extents, strides, dimensions);
      SeparatedInit(AxesOf(extents, strides, dimensions));
      CoveredStep(AxesOf(extents, strides, dimensions));
      KeepSeparated(small, extents, strides, front);
      KeepAppend(small, front, d);
      KeptDimensions(small, front);
      MonotoneProduct(small[d] - 1, extents[d] - 1, strides[d]);
      MonotoneProduct(0, extents[d] - 1, strides[d]);
      AppendAxis(small, strides, Keep(small, front), d, Covered(AxesOf(extents, strides, front)));
    }
  }

  /** One more kept dimension on top of separated ones. */
  lemma AppendAxis(small: seq<int>, strides: seq<int>, kept: seq<nat>, d: nat, room: int)
    requires |strides| == |small| && AreDimensions(kept, |small|) && d < |small|
    requires Separated(AxesOf(small, strides, kept)) && Covered(AxesOf(small, strides, kept)) <= room <= strides[d]
    ensures Separated(AxesOf(small, strides, kept + [d]))
    ensures Covered(AxesOf(small, strides, kept + [d]))
            == Covered(AxesOf(small, strides, kept)) + (small[d] - 1) * strides[d]
  {
    hide Separated, Covered;
    assert Init(kept + [d]) == kept;
    AxesInit(small, strides, kept + [d]);
    AppendSeparated(AxesOf(small, strides, kept + [d]));
    CoveredStep(AxesOf(small, strides, kept + [d]));
  }

  lemma EmptyKeep(small: seq<int>, extents: seq<int>, strides: seq<int>)
    requires |small| == |extents| == |strides|
    ensures Keep(small, []) == []
    ensures Separated(AxesOf(small, strides, []))
    ensures Covered(AxesOf(small, strides, [])) == Covered(AxesOf(extents, strides, []))
  {
  }

  lemma CoveredStep(axes: seq<Axis>)
    requires axes != []
    ensures Covered(axes) == Covered(Init(axes)) + (Last(axes).extent - 1) * Last(axes).stride
  {
  }

  lemma AppendSeparated(axes: seq<Axis>)
    requires axes != [] && Separated(Init(axes)) && Covered(Init(axes)) <= Last(axes).stride
    ensures Separated(axes)
  {
    forall k | 0 <= k < |axes|
      ensures Covered(axes[..k]) <= axes[k].stride
    {
      if k < |axes| - 1 {
        assert Init(axes)[..k] == axes[..k] && Init(axes)[k] == axes[k];
      }
    }
  }

  lemma {:induction false} ShrinkQuantities(small: seq<int>, extents: seq<int>, strides: seq<int>)
    requires Shrinks(small, extents) && |strides| == |extents| && AllAtLeast(1, small) && AllAtLeast(0, strides)
    ensures 1 <= Product(small) <= Product(extents)
    ensures 0 <= Dot(Corner(small), strides) <= Dot(Corner(extents), strides)
  {
    if small == [] {
    } else {
      ShrinkQuantities(Init(small), Init(extents), Init(strides));
      assert Init(Corner(small)) == Corner(Init(small)) && Init(Corner(extents)) == Corner(Init(extents));
      ProductsShrink(Product(Init(small)), Product(Init(extents)), Last(small), Last(extents));
      MonotoneProduct(Last(small) - 1, Last(extents) - 1, Last(strides));
      MonotoneProduct(0, Last(small) - 1, Last(strides));
    }
  }

  lemma ProductsShrink(p: int, q: int, m: int, n: int)
    requires 1 <= p <= q && 1 <= m <= n
    ensures 1 <= p * m <= q * n
  {
    MonotoneProduct(p, q, m);
    MonotoneProduct(m, n, q);
    MonotoneProduct(1, p, m);
  }

  /** Whatever the smaller extents, creating the sub-mapping cannot fail and its
      uniqueness proof succeeds again. */
  lemma {:induction false} SubmappingAccepted(mapping: DenseLayout, small: seq<int>)
    requires WellMade(mapping) && mapping.unique
    requires Shrinks(small, mapping.extents) && AllAtLeast(0, small)
    ensures ExtentsFit(small)
    ensures SpanOf(small, mapping.strides) <= INT64.maximum
    ensures Product(small) == 0 || Separated(SortedAxes(small, mapping.strides))
  {
    hide Separated, Dot, Product;
    var extents, strides := mapping.extents, mapping.strides;
    forall n | 0 <= n <= |small| && AllAtLeast(1, small[..n])
      ensures Product(small[..n]) <= INT64.maximum
    {
      ShrinkQuantities(small[..n], extents[..n], strides[..n]);
      ShrunkPositive(small[..n], extents[..n]);
    }
    ProductSign(small);
    ProductSign(extents);
    if Product(small) != 0 {
      ShrunkPositive(small, extents);
      ShrinkQuantities(small, extents, strides);
      SortedActiveKeep(small, extents, strides);
      KeepSeparated(small, extents, strides, SortedActive(extents, strides));
    }
  }

  lemma ShrunkPositive(small: seq<int>, extents: seq<int>)
    requires Shrinks(small, extents) && AllAtLeast(1, small)
    ensures AllAtLeast(1, extents)
  {
    forall d | 0 <= d < |extents|
      ensures 1 <= extents[d]
    {
      assert small[d] <= extents[d];
    }
  }

  // ----- Subviews -----------------------------------------------------------

  ghost predicate InBounds(view: DenseView, offsets: seq<int>, extents: seq<int>) {
    && |offsets| == |extents| == |view.mapping.extents|
    && forall d :: 0 <= d < |extents| ==>
         0 <= offsets[d] && 0 <= extents[d] && offsets[d] + extents[d] <= view.mapping.extents[d]
  }

  /** The outcome of checking a subview's bounds from left to right. */
  function BoundsStatus(extents: seq<int>, offsets: seq<int>, sizes: seq<int>): Status
    requires |offsets| == |sizes| == |extents|
  {
    if extents == [] then Ok
    else
      var before := BoundsStatus(Init(extents), Init(offsets), Init(sizes));
      var end := Last(offsets) + Last(sizes);
      if before != Ok then before
      else if Last(offsets) < 0 || Last(sizes) < 0 then Failed(InvalidArgument)
      else if end > INT64.maximum then Failed(Overflow)
      else if end > Last(extents) then Failed(Index)
      else Ok
  }

  lemma {:induction false} FailedBounds(extents: seq<int>, offsets: seq<int>, sizes: seq<int>, d: nat)
    requires |offsets| == |sizes| == |extents| && d <= |extents|
    requires BoundsStatus(extents[..d], offsets[..d], sizes[..d]) != Ok
    ensures BoundsStatus(extents, offsets, sizes) == BoundsStatus(extents[..d], offsets[..d], sizes[..d])
    decreases |extents| - d
  {
    if d == |extents| {
      assert extents[..d] == extents && offsets[..d] == offsets && sizes[..d] == sizes;
    } else {
      assert Init(extents[..d + 1]) == extents[..d];
      assert Init(offsets[..d + 1]) == offsets[..d] && Init(sizes[..d + 1]) == sizes[..d];
      FailedBounds(extents, offsets, sizes, d + 1);
    }
  }

  /** One more dimension of the bounds check. */
  lemma BoundsStep(extents: seq<int>, offsets: seq<int>, sizes: seq<int>, d: nat)
    requires |offsets| == |sizes| == |extents| && d < |extents|
    requires BoundsStatus(extents[..d], offsets[..d], sizes[..d]) == Ok
    ensures var next := BoundsStatus(extents[..d + 1], offsets[..d + 1], sizes[..d + 1]);
      && next == (if offsets[d] < 0 || sizes[d] < 0 then Failed(InvalidArgument)
                  else if offsets[d] + sizes[d] > INT64.maximum then Failed(Overflow)
                  else if offsets[d] + sizes[d] > extents[d] then Failed(Index)
                  else Ok)
      && (next != Ok ==> BoundsStatus(extents, offsets, sizes) == next)
  {
    assert Init(extents[..d + 1]) == extents[..d];
    assert Init(offsets[..d + 1]) == offsets[..d] && Init(sizes[..d + 1]) == sizes[..d];
    if BoundsStatus(extents[..d + 1], offsets[..d + 1], sizes[..d + 1]) != Ok {
      FailedBounds(extents, offsets, sizes, d + 1);
    }
  }

  lemma NoBounds(extents: seq<int>, offsets: seq<int>, sizes: seq<int>)
    requires |offsets| == |sizes| == |extents|
    ensures BoundsStatus(extents[..0], offsets[..0], sizes[..0]) == Ok
  {
  }

  /** A subview is refused exactly when it leaves its source: no overflow and no
      loss of uniqueness can occur inside. */
  method Subview(view: DenseView, offsets: seq<int>, extents: seq<int>) returns (r: Result<DenseView>)
    requires ValidView(view) && |offsets| == |extents| == |view.mapping.extents|
    requires AllInt64(offsets) && AllInt64(extents)
    ensures r.Success? <==> InBounds(view, offsets, extents)
    ensures r.Success? ==>
              && ValidView(r.value) && r.value.space == view.space
              && r.value.mapping.extents == extents && r.value.mapping.strides == view.mapping.strides
              && r.value.mapping.kind == StrideKind
              && r.value.data == if AllAtLeast(1, extents) then view.data + Dot(offsets, view.mapping.strides)
                                 else view.data
    ensures r.Failure? ==>
      var status := BoundsStatus(view.mapping.extents, offsets, extents);
      status != Ok && r.error == status.code
  {
    hide Dot, Separated, SortedAxes, ExtentsFit, Product, Corner, BoundsStatus, OffsetStatus;
    var empty := false;
    NoBounds(view.mapping.extents, offsets, extents);
    for d := 0 to |extents|
      invariant forall i :: 0 <= i < d ==>
        0 <= offsets[i] && 0 <= extents[i] && offsets[i] + extents[i] <= view.mapping.extents[i]
      invariant empty <==> !AllAtLeast(1, extents[..d])
      invariant BoundsStatus(view.mapping.extents[..d], offsets[..d], extents[..d]) == Ok
    {
      BoundsStep(view.mapping.extents, offsets, extents, d);
      if offsets[d] < 0 || extents[d] < 0 {
        return Failure(InvalidArgument);
      }
      AddIsExact(INT64, offsets[d], extents[d]);
      var end := CheckedAdd(INT64, offsets[d], extents[d]);
      if end.Failure? {
        assert InRange(INT64, view.mapping.extents[d]);
        return Failure(Overflow);
      }
      if end.value > view.mapping.extents[d] {
        return Failure(Index);
      }
      PrefixAtLeast(1, extents, d);
      empty := empty || extents[d] == 0;
    }
    assert extents[..|extents|] == extents;
    assert forall d :: 0 <= d < |extents| ==> extents[d] <= view.mapping.extents[d];
    SubmappingAccepted(view.mapping, extents);
    var submapping := CreateStride(extents, view.mapping.strides);
    assert submapping.Success? && submapping.value.unique;
    var data := view.data;
    if !empty {
      assert InExtents(view.mapping.extents, offsets) by {
        forall d | 0 <= d < |extents|
          ensures 0 <= offsets[d] < view.mapping.extents[d]
        {
          assert 1 <= extents[d];
        }
      }
      var offset := Offset(view.mapping, offsets);
      data := data + offset.value;
    }
    r := Success(DenseView(data, submapping.value, view.space));
  }

  function Plus(a: seq<int>, b: seq<int>): (c: seq<int>)
    requires |a| == |b|
    ensures |c| == |a|
  {
    seq(|a|, d requires 0 <= d < |a| => a[d] + b[d])
  }

  lemma {:induction false} DotPlus(a: seq<int>, b: seq<int>, strides: seq<int>)
    requires |a| == |b| == |strides|
    ensures Dot(Plus(a, b), strides) == Dot(a, strides) + Dot(b, strides)
  {
    if a == [] {
    } else {
      assert Init(Plus(a, b)) == Plus(Init(a), Init(b));
      DotPlus(Init(a), Init(b), Init(strides));
      var x, y, s := Last(a), Last(b), Last(strides);
      assert (x + y) * s == x * s + y * s;
    }
  }

  /** What the subview operation returns, as its contract states it. */
  ghost predicate IsSubview(sub: DenseView, view: DenseView, offsets: seq<int>, extents: seq<int>) {
    && ValidView(view) && InBounds(view, offsets, extents)
    && ValidView(sub) && sub.space == view.space
    && sub.mapping.extents == extents && sub.mapping.strides == view.mapping.strides && sub.mapping.kind == StrideKind
    && sub.data == if AllAtLeast(1, extents) then view.data + Dot(offsets, view.mapping.strides) else view.data
  }

  /** The subview's element at `c` is its source's element at `offsets + c`. */
  lemma {:induction false} SubviewElement(
      sub: DenseView, view: DenseView, offsets: seq<int>, extents: seq<int>, c: seq<int>)
    requires IsSubview(sub, view, offsets, extents) && InExtents(extents, c)
    ensures InExtents(view.mapping.extents, Plus(offsets, c))
    ensures sub.data + Dot(c, sub.mapping.strides) == view.data + Dot(Plus(offsets, c), view.mapping.strides)
  {
    hide Dot, Separated, SortedAxes, ExtentsFit, Product, Corner;
    InExtentsPositive(extents, c);
    DotPlus(offsets, c, view.mapping.strides);
    forall d | 0 <= d < |extents|
      ensures 0 <= Plus(offsets, c)[d] < view.mapping.extents[d]
    {
      assert 0 <= c[d] < extents[d];
    }
  }

  /** Nested subviews compose by adding their offsets: the inner view is the
      direct subview unless it is empty while its source is not, in which case
      only the address, which no element uses, remembers the first offsets. */
  lemma {:induction false} SubviewsCompose(
      inner: DenseView, outer: DenseView, view: DenseView, direct: DenseView,
      o1: seq<int>, e1: seq<int>, o2: seq<int>, e2: seq<int>)
    requires IsSubview(outer, view, o1, e1) && IsSubview(inner, outer, o2, e2)
    ensures InBounds(view, Plus(o1, o2), e2)
    ensures IsSubview(direct, view, Plus(o1, o2), e2) ==>
      inner.mapping.extents == direct.mapping.extents && inner.mapping.strides == direct.mapping.strides
    ensures IsSubview(direct, view, Plus(o1, o2), e2) ==>
      (inner == direct <==>
       AllAtLeast(1, e2) || !AllAtLeast(1, e1) || Dot(o1, view.mapping.strides) == 0)
  {
    hide Dot, Separated, SortedAxes, ExtentsFit, Product, Corner;
    forall d | 0 <= d < |e2|
      ensures 0 <= Plus(o1, o2)[d] && Plus(o1, o2)[d] + e2[d] <= view.mapping.extents[d]
    {
      assert o2[d] + e2[d] <= e1[d];
    }
    DotPlus(o1, o2, view.mapping.strides);
    if AllAtLeast(1, e2) {
      forall d | 0 <= d < |e1|
        ensures 1 <= e1[d]
      {
        assert 0 <= o2[d] && o2[d] + e2[d] <= e1[d];
      }
    }
  }
}
