/** The left and right layouts, whose strides are products of extents. */
module CanonicalLayouts {
  import opened Results
  import opened Checked
  import opened Sequences
  import opened MixedRadix
  import opened Layouts
  import opened DenseLayouts

  function LeftStrides(extents: seq<int>): (strides: seq<int>)
    ensures |strides| == |extents|
  {
    seq(|extents|, d requires 0 <= d < |extents| => Product(extents[..d]))
  }

  function RightStrides(extents: seq<int>): (strides: seq<int>)
    ensures |strides| == |extents|
  {
    seq(|extents|, d requires 0 <= d < |extents| => Product(extents[d + 1..]))
  }

  lemma {:induction false} ProductSplits(extents: seq<int>, d: nat)
    requires d < |extents|
    ensures Product(extents[d..]) == extents[d] * Product(extents[d + 1..])
  {
    var s := extents[d..];
    if d == |extents| - 1 {
      assert s == [extents[d]] && Init(s) == [] && extents[d + 1..] == [];
      assert Product([]) == 1;
    } else {
      ProductSplits(Init(extents), d);
      assert Init(s) == Init(extents)[d..] && Init(extents[d + 1..]) == Init(extents)[d + 1..];
      assert Init(extents)[d] == extents[d];
      Associate(extents[d], Product(Init(extents)[d + 1..]), Last(extents));
    }
  }

  lemma Associate(a: int, b: int, c: int)
    ensures a * b * c == a * (b * c)
  {
  }

  lemma SliceAtLeast(low: int, s: seq<int>, from: nat, to: nat)
    requires AllAtLeast(low, s) && from <= to <= |s|
    ensures AllAtLeast(low, s[from..to])
  {
  }

  /** Accepted extents never overflow a prefix product. */
  lemma PrefixProductFits(extents: seq<int>, n: nat)
    requires AllAtLeast(0, extents) && ExtentsFit(extents) && n <= |extents|
    ensures 0 <= Product(extents[..n]) <= INT64.maximum
  {
    SliceAtLeast(0, extents, 0, n);
    assert extents[0..n] == extents[..n];
    ProductSign(extents[..n]);
  }

  // ----- Left ---------------------------------------------------------------

  lemma SortAppend(strides: seq<int>, dimensions: seq<nat>, value: nat)
    requires AreDimensions(dimensions, |strides|) && value < |strides|
    ensures SortByStride(strides, dimensions + [value])
            == InsertByStride(strides, SortByStride(strides, dimensions), value)
  {
    assert Init(dimensions + [value]) == dimensions;
  }

  lemma {:induction false} LeftGrows(extents: seq<int>, d: nat, n: nat)
    requires AllAtLeast(1, extents) && d <= n <= |extents|
    ensures 1 <= Product(extents[..d]) <= Product(extents[..n])
  {
    SliceAtLeast(1, extents, 0, d);
    assert extents[0..d] == extents[..d];
    ProductSign(extents[..d]);
    if d < n {
      LeftGrows(extents, d, n - 1);
      ProductPrefix(extents, n - 1);
      MonotoneProduct(1, extents[n - 1], Product(extents[..n - 1]));
    }
  }

  /** Sorting one more dimension, given where it is inserted. */
  lemma SortOneMore(strides: seq<int>, before: seq<nat>, sorted: seq<nat>, value: nat, inserted: seq<nat>)
    requires AreDimensions(before, |strides|) && value < |strides| && SortByStride(strides, before) == sorted
    requires AreDimensions(sorted, |strides|) && InsertByStride(strides, sorted, value) == inserted
    ensures AreDimensions(before + [value], |strides|)
    ensures SortByStride(strides, before + [value]) == inserted
  {
    SortAppend(strides, before, value);
  }

  lemma {:induction false} LeftOrder(extents: seq<int>, n: nat)
    requires AllAtLeast(1, extents) && n <= |extents|
    ensures AreDimensions(ActiveUpTo(extents, n), |extents|)
    ensures SortByStride(LeftStrides(extents), ActiveUpTo(extents, n)) == ActiveUpTo(extents, n)
  {
    hide *;
    var strides := LeftStrides(extents);
    if n == 0 {
      NothingActiveYet(extents);
      EmptySort(strides);
    } else {
      var before := ActiveUpTo(extents, n - 1);
      LeftOrder(extents, n - 1);
      UnfoldUp(extents, n);
      if extents[n - 1] > 1 {
        LeftInsert(extents, n);
        SortOneMore(strides, before, before, n - 1, before + [n - 1]);
      }
    }
  }

  lemma NothingActiveYet(extents: seq<int>)
    ensures ActiveUpTo(extents, 0) == [] && ActiveDown(extents, 0) == []
  {
  }

  lemma LeftInsert(extents: seq<int>, n: nat)
    requires AllAtLeast(1, extents) && 0 < n <= |extents| && extents[n - 1] > 1
    requires AreDimensions(ActiveUpTo(extents, n - 1), |extents|)
    ensures InsertByStride(LeftStrides(extents), ActiveUpTo(extents, n - 1), n - 1)
            == ActiveUpTo(extents, n - 1) + [n - 1]
  {
    hide InsertByStride, Product;
    ActiveAreDimensions(extents, n - 1);
    var before := ActiveUpTo(extents, n - 1);
    if before != [] {
      assert Last(before) in before;
      LeftGrows(extents, Last(before), n - 1);
    }
    InsertAtEnd(LeftStrides(extents), before, n - 1);
  }

  lemma UnfoldUp(extents: seq<int>, n: nat)
    requires 0 < n <= |extents|
    ensures ActiveUpTo(extents, n)
            == if extents[n - 1] > 1 then ActiveUpTo(extents, n - 1) + [n - 1] else ActiveUpTo(extents, n - 1)
  {
    assert ActiveUpTo(extents, n - 1) + [] == ActiveUpTo(extents, n - 1);
  }

  lemma EmptySort(strides: seq<int>)
    ensures SortByStride(strides, []) == []
  {
  }

  lemma {:induction false} LeftIsTight(extents: seq<int>, n: nat)
    requires AllAtLeast(1, extents) && n <= |extents|
    ensures AreDimensions(ActiveUpTo(extents, n), |extents|)
    ensures var axes := AxesOf(extents, LeftStrides(extents), ActiveUpTo(extents, n));
      Separated(axes) && Covered(axes) == Size(axes) == Product(extents[..n])
  {
    hide Covered, Size;
    ActiveAreDimensions(extents, n);
    var strides := LeftStrides(extents);
    if n > 0 {
      LeftIsTight(extents, n - 1);
      ActiveAreDimensions(extents, n - 1);
      var before := ActiveUpTo(extents, n - 1);
      ProductPrefix(extents, n - 1);
      if extents[n - 1] > 1 {
        AppendAxis(extents, strides, before, n - 1, Product(extents[..n - 1]));
      } else {
        assert before + [] == before;
      }
    } else {
      EmptyAxes(AxesOf(extents, strides, ActiveUpTo(extents, 0)));
    }
  }

  lemma EmptyAxes(axes: seq<Axis>)
    requires axes == []
    ensures Separated(axes) && Covered(axes) == Size(axes) == 1
  {
  }

  lemma {:induction false} AppendAxis(extents: seq<int>, strides: seq<int>, dimensions: seq<nat>, d: nat, size: int)
    requires |strides| == |extents| && AreDimensions(dimensions, |extents|) && d < |extents| && strides[d] == size
    requires var axes := AxesOf(extents, strides, dimensions);
      Separated(axes) && Covered(axes) == Size(axes) == size
    ensures var axes := AxesOf(extents, strides, dimensions + [d]);
      Separated(axes) && Covered(axes) == Size(axes) == size * extents[d]
  {
    AxesInit(extents, strides, dimensions + [d]);
    assert Init(dimensions + [d]) == dimensions;
    AppendTight(AxesOf(extents, strides, dimensions + [d]), size);
  }

  // ----- Right --------------------------------------------------------------

  /** Varying dimensions below `n`, in decreasing order. */
  function ActiveDown(extents: seq<int>, n: nat): seq<nat>
    requires n <= |extents|
  {
    if n == 0 then [] else (if extents[n - 1] > 1 then [n - 1] else []) + ActiveDown(extents, n - 1)
  }

  /** Varying dimensions from `d` up, in decreasing order. */
  function ActiveFrom(extents: seq<int>, d: nat): seq<nat>
    requires d <= |extents|
    decreases |extents| - d
  {
    if d == |extents| then [] else ActiveFrom(extents, d + 1) + if extents[d] > 1 then [d] else []
  }

  lemma {:induction false} DownIsFrom(extents: seq<int>, m: nat)
    requires m <= |extents|
    ensures ActiveDown(extents, |extents|) == ActiveFrom(extents, m) + ActiveDown(extents, m)
    decreases |extents| - m
  {
    if m < |extents| {
      DownIsFrom(extents, m + 1);
      var here := if extents[m] > 1 then [m] else [];
      assert ActiveFrom(extents, m + 1) + (here + ActiveDown(extents, m))
              == (ActiveFrom(extents, m + 1) + here) + ActiveDown(extents, m);
    }
  }

  lemma {:induction false} InsertInFront(strides: seq<int>, sorted: seq<nat>, value: nat)
    requires AreDimensions(sorted, |strides|) && value < |strides|
    requires forall i :: 0 <= i < |sorted| ==> strides[value] < strides[sorted[i]]
    ensures InsertByStride(strides, sorted, value) == [value] + sorted
  {
    InsertShifts(strides, sorted, value, 0);
    assert sorted[..0] == [] && sorted[0..] == sorted;
  }

  lemma {:induction false} DownDimensions(extents: seq<int>, n: nat)
    requires n <= |extents|
    ensures AreDimensions(ActiveDown(extents, n), n)
  {
    if n == 0 {
    } else {
      DownDimensions(extents, n - 1);
    }
  }

  lemma {:induction false} SuffixProductDecreases(extents: seq<int>, d: nat, n: nat)
    requires AllAtLeast(1, extents) && d < n < |extents| && extents[n] > 1
    ensures Product(extents[n + 1..]) < Product(extents[d + 1..])
    decreases n - d
  {
    ProductSplits(extents, d + 1);
    SliceAtLeast(1, extents, d + 2, |extents|);
    assert extents[d + 2..|extents|] == extents[d + 2..];
    ProductSign(extents[d + 2..]);
    if d + 1 < n {
      SuffixProductDecreases(extents, d + 1, n);
      MonotoneProduct(1, extents[d + 1], Product(extents[d + 2..]));
    } else {
      MonotoneProduct(2, extents[d + 1], Product(extents[d + 2..]));
    }
  }

  lemma UnfoldDown(extents: seq<int>, n: nat)
    requires 0 < n <= |extents|
    ensures ActiveDown(extents, n)
            == if extents[n - 1] > 1 then [n - 1] + ActiveDown(extents, n - 1) else ActiveDown(extents, n - 1)
  {
  }

  lemma {:induction false} RightOrder(extents: seq<int>, n: nat)
    requires AllAtLeast(1, extents) && n <= |extents|
    ensures AreDimensions(ActiveUpTo(extents, n), |extents|)
    ensures SortByStride(RightStrides(extents), ActiveUpTo(extents, n)) == ActiveDown(extents, n)
  {
    hide *;
    var strides := RightStrides(extents);
    if n == 0 {
      NothingActiveYet(extents);
      EmptySort(strides);
    } else {
      var before, down := ActiveUpTo(extents, n - 1), ActiveDown(extents, n - 1);
      RightOrder(extents, n - 1);
      UnfoldUp(extents, n);
      UnfoldDown(extents, n);
      if extents[n - 1] > 1 {
        RightInsert(extents, n);
        SortOneMore(strides, before, down, n - 1, [n - 1] + down);
      }
    }
  }

  lemma RightInsert(extents: seq<int>, n: nat)
    requires AllAtLeast(1, extents) && 0 < n <= |extents| && extents[n - 1] > 1
    ensures AreDimensions(ActiveDown(extents, n - 1), |extents|)
    ensures InsertByStride(RightStrides(extents), ActiveDown(extents, n - 1), n - 1)
            == [n - 1] + ActiveDown(extents, n - 1)
  {
    hide InsertByStride, Product;
    DownDimensions(extents, n - 1);
    var down := ActiveDown(extents, n - 1);
    forall i | 0 <= i < |down|
      ensures RightStrides(extents)[n - 1] < RightStrides(extents)[down[i]]
    {
      SuffixProductDecreases(extents, down[i], n - 1);
    }
    InsertInFront(RightStrides(extents), down, n - 1);
  }

  lemma {:induction false} RightIsTight(extents: seq<int>, d: nat)
    requires AllAtLeast(1, extents) && d <= |extents|
    ensures AreDimensions(ActiveFrom(extents, d), |extents|)
    ensures var axes := AxesOf(extents, RightStrides(extents), ActiveFrom(extents, d));
      Separated(axes) && Covered(axes) == Size(axes) == Product(extents[d..])
    decreases |extents| - d
  {
    hide Covered, Size;
    var strides := RightStrides(extents);
    if d < |extents| {
      RightIsTight(extents, d + 1);
      var above := ActiveFrom(extents, d + 1);
      ProductSplits(extents, d);
      if extents[d] > 1 {
        AppendAxis(extents, strides, above, d, Product(extents[d + 1..]));
        Commute(extents[d], Product(extents[d + 1..]));
      } else {
        assert above + [] == above;
      }
    } else {
      EmptyAxes(AxesOf(extents, strides, ActiveFrom(extents, d)));
      assert extents[d..] == [];
    }
  }

  lemma Commute(a: int, b: int)
    ensures a * b == b * a
  {
  }

  // ----- Creation -----------------------------------------------------------

  /** Tight sorted axes make a layout that needs no more than its logical size. */
  lemma TightLayout(extents: seq<int>, strides: seq<int>)
    requires |strides| == |extents| && AllAtLeast(1, extents)
    requires Covered(SortedAxes(extents, strides)) == Size(SortedAxes(extents, strides))
    ensures SpanOf(extents, strides) == Product(extents)
  {
    AxesCarryLayout(extents, strides, Corner(extents));
    ProductSign(extents);
  }

  lemma LeftLayoutIsTight(extents: seq<int>)
    requires AllAtLeast(1, extents)
    ensures Separated(SortedAxes(extents, LeftStrides(extents)))
    ensures SpanOf(extents, LeftStrides(extents)) == Product(extents)
  {
    LeftOrder(extents, |extents|);
    LeftIsTight(extents, |extents|);
    TightLayout(extents, LeftStrides(extents));
  }

  lemma RightLayoutIsTight(extents: seq<int>)
    requires AllAtLeast(1, extents)
    ensures Separated(SortedAxes(extents, RightStrides(extents)))
    ensures SpanOf(extents, RightStrides(extents)) == Product(extents)
  {
    RightOrder(extents, |extents|);
    RightIsTight(extents, 0);
    DownIsFrom(extents, 0);
    assert ActiveFrom(extents, 0) + [] == ActiveFrom(extents, 0);
    TightLayout(extents, RightStrides(extents));
  }

  /** Left layouts exist exactly for the extents the validation accepts, and a
      non-empty one is unique and exhaustive. */
  method CreateLeft(extents: seq<int>) returns (r: Result<DenseLayout>)
    requires AllInt64(extents)
    ensures r.Success? <==> AllAtLeast(0, extents) && ExtentsFit(extents)
    ensures r.Success? ==>
              && WellMade(r.value) && r.value.extents == extents && r.value.kind == LeftKind
              && r.value.strides == LeftStrides(extents)
              && (r.value.logicalSize > 0 ==> r.value.unique && r.value.exhaustive)
    ensures r.Failure? ==> r.error == CreationError(extents)
  {
    hide Separated, SortedAxes, ExtentsFit;
    var logicalSize :- ValidateExtents(extents);
    var strides: seq<int> := [];
    var stride := 1;
    for d := 0 to |extents|
      invariant strides == LeftStrides(extents)[..d]
      invariant stride == Product(extents[..d]) && InRange(INT64, stride)
    {
      PrefixProductFits(extents, d);
      PrefixProductFits(extents, d + 1);
      ProductPrefix(extents, d);
      strides := strides + [stride];
      MultiplyIsExact(INT64, stride, extents[d]);
      var next := CheckedMultiply(INT64, stride, extents[d]);
      // The overflow branch of the source cannot be taken here.
      assert next.Success?;
      stride := next.value;
    }
    assert strides == LeftStrides(extents);
    LeftStridesFit(extents);
    ProductSign(extents);
    if AllAtLeast(1, extents) {
      LeftLayoutIsTight(extents);
    }
    PrefixProductFits(extents, |extents|);
    assert extents[..|extents|] == extents;
    r := CreateValidated(extents, strides, LeftKind);
  }

  lemma LeftStridesFit(extents: seq<int>)
    requires AllAtLeast(0, extents) && ExtentsFit(extents)
    ensures AllAtLeast(0, LeftStrides(extents)) && AllInt64(LeftStrides(extents))
  {
    forall d | 0 <= d < |extents|
      ensures 0 <= LeftStrides(extents)[d] <= INT64.maximum
    {
      PrefixProductFits(extents, d);
    }
  }

  /** Whether every product of trailing extents is representable; an early zero
      extent does not excuse a right layout from this. */
  ghost predicate SuffixesFit(extents: seq<int>) {
    forall d :: 0 <= d <= |extents| ==> Product(extents[d..]) <= INT64.maximum
  }

  lemma RightStep(extents: seq<int>, d: nat)
    requires AllAtLeast(0, extents) && d < |extents|
    ensures 0 <= Product(extents[d..]) == Product(extents[d + 1..]) * extents[d]
    ensures RightStrides(extents)[d..] == [Product(extents[d + 1..])] + RightStrides(extents)[d + 1..]
  {
    ProductSplits(extents, d);
    SliceAtLeast(0, extents, d, |extents|);
    assert extents[d..|extents|] == extents[d..];
    ProductSign(extents[d..]);
  }

  /** Right layouts also need every product of trailing extents to fit. */
  method CreateRight(extents: seq<int>) returns (r: Result<DenseLayout>)
    requires AllInt64(extents)
    ensures r.Success? <==> AllAtLeast(0, extents) && ExtentsFit(extents) && SuffixesFit(extents)
    ensures r.Success? ==>
              && WellMade(r.value) && r.value.extents == extents && r.value.kind == RightKind
              && r.value.strides == RightStrides(extents)
              && (r.value.logicalSize > 0 ==> r.value.unique && r.value.exhaustive)
    ensures r.Failure? ==> r.error == CreationError(extents)
  {
    hide Separated, SortedAxes, ExtentsFit, Product, CheckedMultiply, RightStrides;
    var logicalSize :- ValidateExtents(extents);
    var strides: seq<int> := [];
    var stride := 1;
    var reverse := |extents|;
    assert extents[reverse..] == [] && RightStrides(extents)[reverse..] == [];
    EmptyProduct();
    while reverse > 0
      invariant 0 <= reverse <= |extents|
      invariant strides == RightStrides(extents)[reverse..]
      invariant stride == Product(extents[reverse..]) && InRange(INT64, stride)
      invariant forall d :: reverse <= d <= |extents| ==> Product(extents[d..]) <= INT64.maximum
    {
      var dimension := reverse - 1;
      RightStep(extents, dimension);
      strides := [stride] + strides;
      MultiplyIsExact(INT64, stride, extents[dimension]);
      var next := CheckedMultiply(INT64, stride, extents[dimension]);
      if next.Failure? {
        return Failure(Overflow);
      }
      stride := next.value;
      reverse := dimension;
    }
    assert strides == RightStrides(extents);
    RightStridesFit(extents);
    ProductSign(extents);
    if AllAtLeast(1, extents) {
      RightLayoutIsTight(extents);
    }
    assert extents[0..] == extents;
    r := CreateValidated(extents, strides, RightKind);
  }

  lemma RightStridesFit(extents: seq<int>)
    requires AllAtLeast(0, extents) && SuffixesFit(extents)
    ensures AllAtLeast(0, RightStrides(extents)) && AllInt64(RightStrides(extents))
  {
    forall d | 0 <= d < |extents|
      ensures 0 <= RightStrides(extents)[d] <= INT64.maximum
    {
      SliceAtLeast(0, extents, d + 1, |extents|);
      assert extents[d + 1..|extents|] == extents[d + 1..];
      ProductSign(extents[d + 1..]);
    }
  }

  // ----- When right layouts are refused -------------------------------------

  /** Without a zero extent no trailing product exceeds the whole product. */
  lemma {:induction false} SuffixWithinProduct(extents: seq<int>, d: nat)
    requires AllAtLeast(1, extents) && d <= |extents|
    ensures 1 <= Product(extents[d..]) <= Product(extents)
  {
    if d == 0 {
      assert extents[0..] == extents;
      ProductSign(extents);
    } else {
      SuffixWithinProduct(extents, d - 1);
      ProductSplits(extents, d - 1);
      SliceAtLeast(1, extents, d, |extents|);
      assert extents[d..|extents|] == extents[d..];
      ProductSign(extents[d..]);
      MonotoneProduct(1, extents[d - 1], Product(extents[d..]));
    }
  }

  /** Without a zero extent a right layout is created exactly when a left one is. */
  lemma {:induction false} PositiveSuffixesFit(extents: seq<int>)
    requires AllAtLeast(1, extents) && ExtentsFit(extents)
    ensures SuffixesFit(extents)
  {
    hide Product;
    assert extents[..|extents|] == extents;
    forall d | 0 <= d <= |extents|
      ensures Product(extents[d..]) <= INT64.maximum
    {
      SuffixWithinProduct(extents, d);
    }
  }

  /** Extents 0, 2^32 and 2^32: the sizes fit and a trailing product does not. */
  lemma ZeroDoesNotExcuse()
    ensures ExtentsFit([0, 0x1_0000_0000, 0x1_0000_0000])
    ensures !SuffixesFit([0, 0x1_0000_0000, 0x1_0000_0000])
  {
    var extents := [0, 0x1_0000_0000, 0x1_0000_0000];
    var suffix := extents[1..];
    assert suffix == [0x1_0000_0000, 0x1_0000_0000];
    assert Init(suffix) == [0x1_0000_0000] && Init([0x1_0000_0000]) == [];
    assert Product([]) == 1;
    assert Product([0x1_0000_0000]) == 0x1_0000_0000;
    forall n | 0 <= n <= |extents|
      ensures AllAtLeast(1, extents[..n]) ==> Product(extents[..n]) <= INT64.maximum
    {
      assert n > 0 ==> extents[..n][0] == 0;
    }
  }
}
