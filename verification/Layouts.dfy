/** Dense layouts: creation from extents and strides, the uniqueness proof, and offsets. */
module Layouts {
  import opened Results
  import opened Checked
  import opened Sequences
  import opened MixedRadix

  datatype Kind = LeftKind | RightKind | StrideKind

  datatype DenseLayout = DenseLayout(
    extents: seq<int>, strides: seq<int>, logicalSize: int, requiredSpan: int,
    unique: bool, exhaustive: bool, kind: Kind)

  // ----- Quantities of a layout ---------------------------------------------

  function Product(extents: seq<int>): int {
    if extents == [] then 1 else Product(Init(extents)) * Last(extents)
  }

  /** Offset of a coordinate tuple. */
  function Dot(coordinates: seq<int>, strides: seq<int>): int
    requires |coordinates| == |strides|
  {
    if coordinates == [] then 0 else Dot(Init(coordinates), Init(strides)) + Last(coordinates) * Last(strides)
  }

  /** The largest coordinate in every dimension. */
  function Corner(extents: seq<int>): (c: seq<int>)
    ensures |c| == |extents|
  {
    seq(|extents|, d requires 0 <= d < |extents| => extents[d] - 1)
  }

  predicate InExtents(extents: seq<int>, coordinates: seq<int>) {
    |coordinates| == |extents| && forall d :: 0 <= d < |extents| ==> 0 <= coordinates[d] < extents[d]
  }

  predicate AllAtLeast(low: int, s: seq<int>) {
    forall d :: 0 <= d < |s| ==> low <= s[d]
  }

  predicate AllInt64(s: seq<int>) {
    forall d :: 0 <= d < |s| ==> InRange(INT64, s[d])
  }

  /** Dimensions that actually vary, in increasing order. */
  function ActiveUpTo(extents: seq<int>, n: nat): seq<nat>
    requires n <= |extents|
  {
    if n == 0 then [] else ActiveUpTo(extents, n - 1) + if extents[n - 1] > 1 then [n - 1] else []
  }

  predicate AreDimensions(dimensions: seq<nat>, rank: nat) {
    forall i :: 0 <= i < |dimensions| ==> dimensions[i] < rank
  }

  /** One step of the stable insertion sort by stride. */
  function InsertByStride(strides: seq<int>, sorted: seq<nat>, value: nat): seq<nat>
    requires AreDimensions(sorted, |strides|) && value < |strides|
  {
    if sorted == [] then [value]
    else if strides[value] < strides[Last(sorted)] then InsertByStride(strides, Init(sorted), value) + [Last(sorted)]
    else sorted + [value]
  }

  function SortByStride(strides: seq<int>, dimensions: seq<nat>): (sorted: seq<nat>)
    requires AreDimensions(dimensions, |strides|)
    ensures |sorted| == |dimensions| && AreDimensions(sorted, |strides|)
  {
    if dimensions == [] then [] else
      var sorted := SortByStride(strides, Init(dimensions));
      InsertedDimensions(strides, sorted, Last(dimensions));
      InsertByStride(strides, sorted, Last(dimensions))
  }

  lemma {:induction false} InsertedDimensions(strides: seq<int>, sorted: seq<nat>, value: nat)
    requires AreDimensions(sorted, |strides|) && value < |strides|
    ensures |InsertByStride(strides, sorted, value)| == |sorted| + 1
    ensures AreDimensions(InsertByStride(strides, sorted, value), |strides|)
    ensures forall d :: d in InsertByStride(strides, sorted, value) <==> d in sorted || d == value
  {
    if sorted != [] && strides[value] < strides[Last(sorted)] {
      InsertedDimensions(strides, Init(sorted), value);
      assert sorted == Init(sorted) + [Last(sorted)];
    }
  }

  lemma {:induction false} ActiveAreDimensions(extents: seq<int>, n: nat)
    requires n <= |extents|
    ensures AreDimensions(ActiveUpTo(extents, n), n)
    ensures |ActiveUpTo(extents, n)| <= n
    ensures forall d :: d in ActiveUpTo(extents, n) <==> 0 <= d < n && extents[d] > 1
  {
    if n == 0 {
    } else {
      ActiveAreDimensions(extents, n - 1);
    }
  }

  /** Active dimensions in the order the uniqueness proof visits them. */
  function SortedActive(extents: seq<int>, strides: seq<int>): (sorted: seq<nat>)
    requires |strides| == |extents|
    ensures AreDimensions(sorted, |extents|)
  {
    ActiveAreDimensions(extents, |extents|);
    SortByStride(strides, ActiveUpTo(extents, |extents|))
  }

  function AxesOf(extents: seq<int>, strides: seq<int>, dimensions: seq<nat>): (axes: seq<Axis>)
    requires |strides| == |extents| && AreDimensions(dimensions, |extents|)
    ensures |axes| == |dimensions|
    ensures forall i :: 0 <= i < |axes| ==> axes[i] == Axis(extents[dimensions[i]], strides[dimensions[i]])
  {
    seq(|dimensions|, i requires 0 <= i < |dimensions| => Axis(extents[dimensions[i]], strides[dimensions[i]]))
  }

  function SortedAxes(extents: seq<int>, strides: seq<int>): seq<Axis>
    requires |strides| == |extents|
  {
    AxesOf(extents, strides, SortedActive(extents, strides))
  }

  lemma {:induction false} AxesInit(extents: seq<int>, strides: seq<int>, dimensions: seq<nat>)
    requires |strides| == |extents| && AreDimensions(dimensions, |extents|) && dimensions != []
    ensures Init(AxesOf(extents, strides, dimensions)) == AxesOf(extents, strides, Init(dimensions))
    ensures Last(AxesOf(extents, strides, dimensions)) == Axis(extents[Last(dimensions)], strides[Last(dimensions)])
  {
  }

  // ----- What the sort preserves --------------------------------------------

  function SumOver(f: nat -> int, dimensions: seq<nat>): int {
    if dimensions == [] then 0 else SumOver(f, Init(dimensions)) + f(Last(dimensions))
  }

  function ProductOver(f: nat -> int, dimensions: seq<nat>): int {
    if dimensions == [] then 1 else ProductOver(f, Init(dimensions)) * f(Last(dimensions))
  }

  lemma SwapFactors(a: int, b: int, c: int)
    ensures a * b * c == a * c * b
  {
  }

  lemma {:induction false} InsertPreserves(strides: seq<int>, sorted: seq<nat>, value: nat, f: nat -> int)
    requires AreDimensions(sorted, |strides|) && value < |strides|
    ensures SumOver(f, InsertByStride(strides, sorted, value)) == SumOver(f, sorted) + f(value)
    ensures ProductOver(f, InsertByStride(strides, sorted, value)) == ProductOver(f, sorted) * f(value)
  {
    var result := InsertByStride(strides, sorted, value);
    if sorted != [] && strides[value] < strides[Last(sorted)] {
      InsertPreserves(strides, Init(sorted), value, f);
      assert Init(result) == InsertByStride(strides, Init(sorted), value);
      SwapFactors(ProductOver(f, Init(sorted)), f(value), f(Last(sorted)));
    } else {
      assert Init(result) == sorted;
    }
  }

  lemma {:induction false} SortPreserves(strides: seq<int>, dimensions: seq<nat>, f: nat -> int)
    requires AreDimensions(dimensions, |strides|)
    ensures SumOver(f, SortByStride(strides, dimensions)) == SumOver(f, dimensions)
    ensures ProductOver(f, SortByStride(strides, dimensions)) == ProductOver(f, dimensions)
    ensures forall d :: d in SortByStride(strides, dimensions) <==> d in dimensions
  {
    if dimensions == [] {
    } else {
      var sorted := SortByStride(strides, Init(dimensions));
      SortPreserves(strides, Init(dimensions), f);
      InsertPreserves(strides, sorted, Last(dimensions), f);
      InsertedDimensions(strides, sorted, Last(dimensions));
      assert dimensions == Init(dimensions) + [Last(dimensions)];
    }
  }

  predicate StridesAscend(strides: seq<int>, dimensions: seq<nat>)
    requires AreDimensions(dimensions, |strides|)
  {
    forall i, j :: 0 <= i < j < |dimensions| ==> strides[dimensions[i]] <= strides[dimensions[j]]
  }

  predicate Distinct(dimensions: seq<nat>) {
    forall i, j :: 0 <= i < j < |dimensions| ==> dimensions[i] != dimensions[j]
  }

  lemma {:induction false} InsertSorts(strides: seq<int>, sorted: seq<nat>, value: nat)
    requires AreDimensions(sorted, |strides|) && value < |strides|
    requires StridesAscend(strides, sorted) && Distinct(sorted) && value !in sorted
    ensures AreDimensions(InsertByStride(strides, sorted, value), |strides|)
    ensures StridesAscend(strides, InsertByStride(strides, sorted, value))
    ensures Distinct(InsertByStride(strides, sorted, value))
  {
    InsertedDimensions(strides, sorted, value);
    if sorted != [] && strides[value] < strides[Last(sorted)] {
      assert InsertByStride(strides, sorted, value) == InsertByStride(strides, Init(sorted), value) + [Last(sorted)];
      hide InsertByStride;
      InsertSorts(strides, Init(sorted), value);
      InsertedDimensions(strides, Init(sorted), value);
      var front := InsertByStride(strides, Init(sorted), value);
      forall i | 0 <= i < |front|
        ensures strides[front[i]] <= strides[Last(sorted)] && front[i] != Last(sorted)
      {
        assert front[i] in front;
        if front[i] != value {
          var k :| 0 <= k < |Init(sorted)| && Init(sorted)[k] == front[i];
        }
      }
    }
  }

  lemma {:induction false} ActiveDistinct(extents: seq<int>, n: nat)
    requires n <= |extents|
    ensures Distinct(ActiveUpTo(extents, n))
  {
    if n == 0 {
    } else {
      ActiveDistinct(extents, n - 1);
      ActiveAreDimensions(extents, n - 1);
    }
  }

  lemma {:induction false} SortSorts(strides: seq<int>, dimensions: seq<nat>)
    requires AreDimensions(dimensions, |strides|) && Distinct(dimensions)
    ensures StridesAscend(strides, SortByStride(strides, dimensions))
    ensures Distinct(SortByStride(strides, dimensions))
  {
    if dimensions == [] {
    } else {
      SortSorts(strides, Init(dimensions));
      SortPreserves(strides, Init(dimensions), d => 0);
      InsertSorts(strides, SortByStride(strides, Init(dimensions)), Last(dimensions));
    }
  }

  lemma SortedActiveIs(extents: seq<int>, strides: seq<int>)
    requires |strides| == |extents|
    ensures var sorted := SortedActive(extents, strides);
      && StridesAscend(strides, sorted) && Distinct(sorted)
      && (forall d :: d in sorted <==> 0 <= d < |extents| && extents[d] > 1)
  {
    ActiveAreDimensions(extents, |extents|);
    ActiveDistinct(extents, |extents|);
    SortSorts(strides, ActiveUpTo(extents, |extents|));
    SortPreserves(strides, ActiveUpTo(extents, |extents|), d => 0);
  }

  // ----- The axes carry the layout's quantities ------------------------------

  function Pick(coordinates: seq<int>, dimensions: seq<nat>): (x: seq<int>)
    requires AreDimensions(dimensions, |coordinates|)
    ensures |x| == |dimensions| && forall i :: 0 <= i < |x| ==> x[i] == coordinates[dimensions[i]]
  {
    seq(|dimensions|, i requires 0 <= i < |dimensions| => coordinates[dimensions[i]])
  }

  ghost function OffsetTerm(coordinates: seq<int>, strides: seq<int>): nat -> int
    requires |coordinates| == |strides|
  {
    (d: nat) => if d < |strides| then coordinates[d] * strides[d] else 0
  }

  ghost function ExtentTerm(extents: seq<int>): nat -> int {
    (d: nat) => if d < |extents| then extents[d] else 1
  }

  lemma {:induction false} PositionIsSum(
      extents: seq<int>, strides: seq<int>, coordinates: seq<int>, dimensions: seq<nat>)
    requires |strides| == |extents| == |coordinates| && AreDimensions(dimensions, |extents|)
    ensures Position(AxesOf(extents, strides, dimensions), Pick(coordinates, dimensions))
            == SumOver(OffsetTerm(coordinates, strides), dimensions)
  {
    if dimensions == [] {
    } else {
      PositionIsSum(extents, strides, coordinates, Init(dimensions));
      AxesInit(extents, strides, dimensions);
      assert Init(Pick(coordinates, dimensions)) == Pick(coordinates, Init(dimensions));
    }
  }

  lemma {:induction false} CoveredIsSum(extents: seq<int>, strides: seq<int>, dimensions: seq<nat>)
    requires |strides| == |extents| && AreDimensions(dimensions, |extents|)
    ensures Covered(AxesOf(extents, strides, dimensions))
            == 1 + SumOver(OffsetTerm(Corner(extents), strides), dimensions)
    ensures Size(AxesOf(extents, strides, dimensions)) == ProductOver(ExtentTerm(extents), dimensions)
  {
    if dimensions == [] {
    } else {
      CoveredIsSum(extents, strides, Init(dimensions));
      AxesInit(extents, strides, dimensions);
    }
  }

  lemma SumAppend(f: nat -> int, dimensions: seq<nat>, d: nat)
    ensures SumOver(f, dimensions + [d]) == SumOver(f, dimensions) + f(d)
    ensures dimensions + [] == dimensions
  {
    assert Init(dimensions + [d]) == dimensions;
  }

  lemma DotPrefix(coordinates: seq<int>, strides: seq<int>, n: nat)
    requires |coordinates| == |strides| && n < |strides|
    ensures Dot(coordinates[..n + 1], strides[..n + 1])
            == Dot(coordinates[..n], strides[..n]) + coordinates[n] * strides[n]
  {
    assert Init(coordinates[..n + 1]) == coordinates[..n] && Init(strides[..n + 1]) == strides[..n];
  }

  lemma {:induction false} ActiveSum(extents: seq<int>, coordinates: seq<int>, strides: seq<int>, n: nat)
    requires |coordinates| == |strides| == |extents| && n <= |extents|
    requires forall d :: 0 <= d < n && extents[d] <= 1 ==> coordinates[d] == 0
    ensures SumOver(OffsetTerm(coordinates, strides), ActiveUpTo(extents, n)) == Dot(coordinates[..n], strides[..n])
  {
    hide SumOver, Dot;
    if n > 0 {
      ActiveSum(extents, coordinates, strides, n - 1);
      DotPrefix(coordinates, strides, n - 1);
      SumAppend(OffsetTerm(coordinates, strides), ActiveUpTo(extents, n - 1), n - 1);
      assert coordinates[n - 1] == 0 ==> coordinates[n - 1] * strides[n - 1] == 0;
    } else {
      EmptySum(coordinates, strides, extents);
    }
  }

  lemma EmptySum(coordinates: seq<int>, strides: seq<int>, extents: seq<int>)
    requires |coordinates| == |strides|
    ensures SumOver(OffsetTerm(coordinates, strides), ActiveUpTo(extents, 0)) == Dot(coordinates[..0], strides[..0])
  {
  }

  lemma {:induction false} ActiveProduct(extents: seq<int>, n: nat)
    requires n <= |extents| && AllAtLeast(1, extents)
    ensures ProductOver(ExtentTerm(extents), ActiveUpTo(extents, n)) == Product(extents[..n])
  {
    if n == 0 {
    } else {
      ActiveProduct(extents, n - 1);
      assert Init(extents[..n]) == extents[..n - 1];
      var before := ActiveUpTo(extents, n - 1);
      if extents[n - 1] > 1 {
        assert Init(before + [n - 1]) == before;
      } else {
        assert before + [] == before;
      }
    }
  }

  /** Position, reach and size of the sorted axes are those of the layout. */
  lemma AxesCarryLayout(extents: seq<int>, strides: seq<int>, coordinates: seq<int>)
    requires |strides| == |extents| && AllAtLeast(1, extents) && InExtents(extents, coordinates)
    ensures Position(SortedAxes(extents, strides), Pick(coordinates, SortedActive(extents, strides)))
            == Dot(coordinates, strides)
    ensures Covered(SortedAxes(extents, strides)) == 1 + Dot(Corner(extents), strides)
    ensures Size(SortedAxes(extents, strides)) == Product(extents)
  {
    hide SumOver, ProductOver, Dot, Covered, Position, Size, SortByStride, ActiveUpTo, Product, OffsetTerm, ExtentTerm;
    var active, sorted := ActiveUpTo(extents, |extents|), SortedActive(extents, strides);
    ActiveAreDimensions(extents, |extents|);
    PositionIsSum(extents, strides, coordinates, sorted);
    CoveredIsSum(extents, strides, sorted);
    SortPreserves(strides, active, OffsetTerm(coordinates, strides));
    SortPreserves(strides, active, OffsetTerm(Corner(extents), strides));
    SortPreserves(strides, active, ExtentTerm(extents));
    ActiveSum(extents, coordinates, strides, |extents|);
    ActiveSum(extents, Corner(extents), strides, |extents|);
    ActiveProduct(extents, |extents|);
    assert coordinates[..|extents|] == coordinates && strides[..|extents|] == strides;
    assert extents[..|extents|] == extents && Corner(extents)[..|extents|] == Corner(extents);
  }
}
