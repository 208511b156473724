/** What the flags of a created layout mean, and the two canonical layouts. */
module LayoutTheorems {
  import opened Results
  import opened Checked
  import opened Sequences
  import opened MixedRadix
  import opened Layouts
  import opened DenseLayouts

  // ----- Unique -------------------------------------------------------------

  /** Coordinates that agree on every varying dimension are equal. */
  lemma {:induction false} PickDetermines(extents: seq<int>, strides: seq<int>, c: seq<int>, c': seq<int>)
    requires |strides| == |extents| && InExtents(extents, c) && InExtents(extents, c')
    requires Pick(c, SortedActive(extents, strides)) == Pick(c', SortedActive(extents, strides))
    ensures c == c'
  {
    var sorted := SortedActive(extents, strides);
    SortedActiveIs(extents, strides);
    forall d | 0 <= d < |extents|
      ensures c[d] == c'[d]
    {
      if extents[d] > 1 {
        var i :| 0 <= i < |sorted| && sorted[i] == d;
        assert Pick(c, sorted)[i] == Pick(c', sorted)[i];
      }
    }
  }

  lemma PickInBox(extents: seq<int>, strides: seq<int>, c: seq<int>)
    requires |strides| == |extents| && InExtents(extents, c)
    ensures InBox(SortedAxes(extents, strides), Pick(c, SortedActive(extents, strides)))
  {
  }

  /** A layout that reports unique never sends two coordinate tuples to one
      offset, and every offset lies below the required span. */
  lemma {:induction false} UniqueMeansInjective(layout: DenseLayout, c: seq<int>, c': seq<int>)
    requires WellMade(layout) && layout.unique
    requires InExtents(layout.extents, c) && InExtents(layout.extents, c')
    ensures 0 <= Dot(c, layout.strides) < layout.requiredSpan
    ensures Dot(c, layout.strides) == Dot(c', layout.strides) ==> c == c'
  {
    hide Position, Covered, Dot, ExtentsFit, Product;
    var extents, strides := layout.extents, layout.strides;
    InExtentsPositive(extents, c);
    ProductSign(extents);
    DotBounds(extents, strides, c);
    SortedAxesAreAxes(extents, strides);
    AxesCarryLayout(extents, strides, c);
    AxesCarryLayout(extents, strides, c');
    if Dot(c, strides) == Dot(c', strides) {
      PickInBox(extents, strides, c);
      PickInBox(extents, strides, c');
      var sorted := SortedActive(extents, strides);
      SeparatedIsInjective(SortedAxes(extents, strides), Pick(c, sorted), Pick(c', sorted));
      PickDetermines(extents, strides, c, c');
    }
  }

  /** The converse fails: with extents 3 and 2 and strides 2 and 3 all six
      offsets differ, yet the proof gives up. */
  lemma UniquenessTestIsOnlySufficient(c: seq<int>, c': seq<int>)
    requires InExtents([3, 2], c) && InExtents([3, 2], c')
    ensures Dot(c, [2, 3]) == Dot(c', [2, 3]) ==> c == c'
    ensures !Separated(SortedAxes([3, 2], [2, 3]))
  {
    DotOfTwo(c, [2, 3]);
    DotOfTwo(c', [2, 3]);
    assert c == [c[0], c[1]] && c' == [c'[0], c'[1]];
    SortedOfTwo([3, 2], [2, 3]);
    var axes := SortedAxes([3, 2], [2, 3]);
    assert axes[..1] == [Axis(3, 2)] && axes[1] == Axis(2, 3);
    CoveredOfOne(Axis(3, 2));
  }

  lemma DotOfTwo(x: seq<int>, strides: seq<int>)
    requires |x| == |strides| == 2
    ensures Dot(x, strides) == x[0] * strides[0] + x[1] * strides[1]
  {
    assert Init(x) == [x[0]] && Init(strides) == [strides[0]];
    assert Init([x[0]]) == [] && Init([strides[0]]) == [];
    assert Dot([], []) == 0;
    assert Dot([x[0]], [strides[0]]) == x[0] * strides[0];
  }

  lemma CoveredOfOne(a: Axis)
    ensures Covered([a]) == 1 + (a.extent - 1) * a.stride
  {
    assert Init([a]) == [];
    assert Covered([]) == 1;
  }

  lemma ActiveOfTwo(extents: seq<int>)
    requires |extents| == 2 && extents[0] > 1 && extents[1] > 1
    ensures ActiveUpTo(extents, 2) == [0, 1]
  {
    assert ActiveUpTo(extents, 0) == [];
    assert ActiveUpTo(extents, 1) == [0];
  }

  lemma SortOfTwo(strides: seq<int>)
    requires |strides| == 2 && strides[0] <= strides[1]
    ensures SortByStride(strides, [0, 1]) == [0, 1]
  {
    assert Init([0, 1]) == [0] && Init([0]) == [];
    assert SortByStride(strides, []) == [];
    assert InsertByStride(strides, [], 0) == [0];
    assert SortByStride(strides, [0]) == [0];
    assert InsertByStride(strides, [0], 1) == [0, 1];
  }

  lemma SortedOfTwo(extents: seq<int>, strides: seq<int>)
    requires |extents| == |strides| == 2 && extents[0] > 1 && extents[1] > 1 && strides[0] <= strides[1]
    ensures SortedActive(extents, strides) == [0, 1]
  {
    hide ActiveUpTo, SortByStride, InsertByStride;
    ActiveOfTwo(extents);
    SortOfTwo(strides);
  }

  // ----- Exhaustive ---------------------------------------------------------

  /** Some coordinate tuple has this offset. */
  ghost predicate Reached(layout: DenseLayout, offset: int)
    requires |layout.strides| == |layout.extents|
  {
    exists c :: InExtents(layout.extents, c) && Dot(c, layout.strides) == offset
  }

  ghost predicate IsOneToOne(layout: DenseLayout)
    requires |layout.strides| == |layout.extents|
  {
    forall c, c' | InExtents(layout.extents, c) && InExtents(layout.extents, c') ::
      Dot(c, layout.strides) == Dot(c', layout.strides) ==> c == c'
  }

  /** The offset map is one-to-one onto the offsets below the logical size. */
  ghost predicate IsBijection(layout: DenseLayout)
    requires |layout.strides| == |layout.extents|
  {
    && IsOneToOne(layout)
    && (forall offset :: Reached(layout, offset) <==> 0 <= offset < layout.logicalSize)
  }

  /** Spreads the coordinates of the varying dimensions over all of them. */
  lemma {:induction false} Unpick(extents: seq<int>, strides: seq<int>, x: seq<int>) returns (c: seq<int>)
    requires |strides| == |extents| && AllAtLeast(1, extents)
    requires InBox(SortedAxes(extents, strides), x)
    ensures InExtents(extents, c) && Pick(c, SortedActive(extents, strides)) == x
  {
    var sorted := SortedActive(extents, strides);
    SortedActiveIs(extents, strides);
    c := seq(|extents|, d requires 0 <= d < |extents| => CoordinateOf(sorted, x, d));
    forall d | 0 <= d < |extents|
      ensures 0 <= c[d] < extents[d]
    {
      if d in sorted {
        var i := FindDimension(sorted, d);
        CoordinateIs(sorted, x, i);
      } else {
        CoordinateMissing(sorted, x, d);
      }
    }
    forall i | 0 <= i < |x|
      ensures Pick(c, sorted)[i] == x[i]
    {
      CoordinateIs(sorted, x, i);
    }
  }

  lemma FindDimension(sorted: seq<nat>, d: nat) returns (i: nat)
    requires d in sorted
    ensures i < |sorted| && sorted[i] == d
  {
    i :| 0 <= i < |sorted| && sorted[i] == d;
  }

  function CoordinateOf(sorted: seq<nat>, x: seq<int>, d: nat): int
    requires |x| == |sorted|
  {
    if sorted == [] then 0
    else if Last(sorted) == d then Last(x)
    else CoordinateOf(Init(sorted), Init(x), d)
  }

  lemma {:induction false} CoordinateIs(sorted: seq<nat>, x: seq<int>, i: nat)
    requires |x| == |sorted| && Distinct(sorted) && i < |sorted|
    ensures CoordinateOf(sorted, x, sorted[i]) == x[i]
  {
    if i < |sorted| - 1 {
      CoordinateIs(Init(sorted), Init(x), i);
    }
  }

  lemma {:induction false} CoordinateMissing(sorted: seq<nat>, x: seq<int>, d: nat)
    requires |x| == |sorted| && d !in sorted
    ensures CoordinateOf(sorted, x, d) == 0
  {
    if sorted == [] {
    } else {
      assert Last(sorted) in sorted;
      CoordinateMissing(Init(sorted), Init(x), d);
    }
  }

  lemma {:induction false} ReachedIsTaken(layout: DenseLayout, p: int)
    requires WellMade(layout) && layout.logicalSize > 0
    ensures Reached(layout, p) <==> Taken(SortedAxes(layout.extents, layout.strides), p)
  {
    hide Position, Dot, ExtentsFit, Product, Separated, Covered;
    var extents, strides := layout.extents, layout.strides;
    var axes, sorted := SortedAxes(extents, strides), SortedActive(extents, strides);
    ProductSign(extents);
    if Reached(layout, p) {
      var c :| InExtents(extents, c) && Dot(c, strides) == p;
      PickInBox(extents, strides, c);
      AxesCarryLayout(extents, strides, c);
    }
    if Taken(axes, p) {
      var x :| InBox(axes, x) && Position(axes, x) == p;
      var c := Unpick(extents, strides, x);
      AxesCarryLayout(extents, strides, c);
    }
  }

  lemma {:induction false} InjectiveIsInjective(layout: DenseLayout)
    requires WellMade(layout) && layout.logicalSize > 0
    ensures Injective(SortedAxes(layout.extents, layout.strides)) <==> IsOneToOne(layout)
  {
    hide Position, Dot, ExtentsFit, Product, Separated, Covered, Pick;
    var extents, strides := layout.extents, layout.strides;
    var axes, sorted := SortedAxes(extents, strides), SortedActive(extents, strides);
    ProductSign(extents);
    if Injective(axes) {
      forall c, c' | InExtents(extents, c) && InExtents(extents, c') && Dot(c, strides) == Dot(c', strides)
        ensures c == c'
      {
        AxesCarryLayout(extents, strides, c);
        AxesCarryLayout(extents, strides, c');
        PickInBox(extents, strides, c);
        PickInBox(extents, strides, c');
        PickDetermines(extents, strides, c, c');
      }
    }
    if IsOneToOne(layout) {
      forall x, y | InBox(axes, x) && InBox(axes, y) && Position(axes, x) == Position(axes, y)
        ensures x == y
      {
        var c := Unpick(extents, strides, x);
        var c' := Unpick(extents, strides, y);
        AxesCarryLayout(extents, strides, c);
        AxesCarryLayout(extents, strides, c');
      }
    }
  }

  /** A non-empty layout reports exhaustive exactly when its offset map is a bijection. */
  lemma {:induction false} ExhaustiveIffBijection(layout: DenseLayout)
    requires WellMade(layout) && layout.logicalSize > 0
    ensures layout.exhaustive <==> IsBijection(layout)
  {
    hide Position, Dot, ExtentsFit, Product, Separated, Covered, Reached, Taken, Injective;
    var extents, strides := layout.extents, layout.strides;
    var axes := SortedAxes(extents, strides);
    ProductSign(extents);
    SortedAxesAreAxes(extents, strides);
    AxesCarryLayout(extents, strides, Corner(extents));
    BijectionIffTight(axes);
    InjectiveIsInjective(layout);
    forall p
      ensures Reached(layout, p) <==> Taken(axes, p)
    {
      ReachedIsTaken(layout, p);
    }
    SpanIsCovered(layout);
  }

  lemma SpanIsCovered(layout: DenseLayout)
    requires WellMade(layout) && layout.logicalSize > 0
    ensures layout.requiredSpan == 1 + Dot(Corner(layout.extents), layout.strides)
  {
  }
}
