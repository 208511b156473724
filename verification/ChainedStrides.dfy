/** When the uniqueness test is exact: strides that divide one another. */
module ChainedStrides {
  import opened Checked
  import opened Sequences
  import opened MixedRadix
  import opened Layouts
  import opened DenseLayouts
  import opened LayoutTheorems

  /** Every positive stride divides the next one. */
  predicate Chained(axes: seq<Axis>) {
    forall i :: 1 <= i < |axes| ==> DividesNext(axes, i)
  }

  predicate DividesNext(axes: seq<Axis>, i: nat)
    requires 1 <= i < |axes|
  {
    axes[i - 1].stride > 0 ==> axes[i].stride % axes[i - 1].stride == 0
  }

  /** The stride of an axis as a position of the axis below it. */
  lemma {:induction false} StrideIsTaken(axes: seq<Axis>, k: nat) returns (y: seq<int>)
    requires AreAxes(axes) && 1 <= k < |axes| && Separated(axes[..k]) && DividesNext(axes, k)
    requires axes[k].stride < Covered(axes[..k])
    ensures InBox(axes[..k], y) && Position(axes[..k], y) == axes[k].stride
  {
    hide Covered, Separated, Position;
    var below, t, s := axes[..k], axes[k - 1].stride, axes[k].stride;
    assert Last(below) == axes[k - 1];
    SeparatedInit(below);
    var zeros := Zeros(k - 1);
    PositionOfZeros(Init(below));
    ZerosInBox(Init(below));
    PositionBounds(Init(below), zeros);
    CoveredLast(below);
    var digit := s / t;
    DigitInRange(s, t, axes[k - 1].extent);
    AppendDigit(below, zeros, digit);
    y := zeros + [digit];
  }

  lemma ZerosInBox(axes: seq<Axis>)
    requires AreAxes(axes)
    ensures InBox(axes, Zeros(|axes|))
  {
  }

  lemma CoveredLast(axes: seq<Axis>)
    requires axes != [] && Covered(Init(axes)) <= Last(axes).stride
    ensures Covered(axes) <= Last(axes).extent * Last(axes).stride
  {
    var extent, stride := Last(axes).extent, Last(axes).stride;
    assert (extent - 1) * stride == extent * stride - stride;
  }

  /** On chained axes, one-to-one up to `k` axes forces the next stride to clear them. */
  lemma {:induction false} NextStrideClears(axes: seq<Axis>, k: nat)
    requires AreAxes(axes) && Injective(axes) && Chained(axes)
    requires k < |axes| && axes[k].extent > 1 && Separated(axes[..k])
    ensures Covered(axes[..k]) <= axes[k].stride
  {
    hide Injective, Separated, Position;
    if k == 0 {
      assert axes[..0] == [];
      if axes[0].stride == 0 {
        PositionOfZeros([]);
        assert Zeros(0) == [];
        Collision(axes, 0, []);
      }
    } else if axes[k].stride < Covered(axes[..k]) {
      assert DividesNext(axes, k);
      var y := StrideIsTaken(axes, k);
      Collision(axes, k, y);
    }
  }

  lemma {:induction false} SeparatedUpTo(axes: seq<Axis>, k: nat)
    requires AreAxes(axes) && Injective(axes) && Chained(axes) && k <= |axes|
    requires forall i :: 0 <= i < |axes| ==> axes[i].extent > 1
    ensures Separated(axes[..k])
  {
    hide Injective, Chained, Covered;
    if k == 0 {
      assert axes[..0] == [];
    } else {
      SeparatedUpTo(axes, k - 1);
      NextStrideClears(axes, k - 1);
      forall i | 0 <= i < k
        ensures Covered(axes[..k][..i]) <= axes[..k][i].stride
      {
        assert axes[..k][..i] == axes[..i];
        if i < k - 1 {
          assert axes[..k - 1][..i] == axes[..i] && axes[..k - 1][i] == axes[i];
        }
      }
    }
  }

  /** On chained axes the separation test is exact: it holds if and only if
      distinct coordinates have distinct positions. */
  lemma {:induction false} SeparatedIffInjective(axes: seq<Axis>)
    requires AreAxes(axes) && Chained(axes)
    requires forall i :: 0 <= i < |axes| ==> axes[i].extent > 1
    ensures Separated(axes) <==> Injective(axes)
  {
    if Separated(axes) {
      forall x, y | InBox(axes, x) && InBox(axes, y) && Position(axes, x) == Position(axes, y)
        ensures x == y
      {
        SeparatedIsInjective(axes, x, y);
      }
    }
    if Injective(axes) {
      SeparatedUpTo(axes, |axes|);
      assert axes[..|axes|] == axes;
    }
  }

  /** A created layout with elements whose sorted strides divide one another
      reports unique if and only if its offset map is one-to-one. */
  lemma {:induction false} UniqueIffOneToOne(layout: DenseLayout)
    requires WellMade(layout) && layout.logicalSize > 0
    requires Chained(SortedAxes(layout.extents, layout.strides))
    ensures layout.unique <==> IsOneToOne(layout)
  {
    hide Chained, Separated, Injective, IsOneToOne, ExtentsFit;
    SortedAxesAreAxes(layout.extents, layout.strides);
    SeparatedIffInjective(SortedAxes(layout.extents, layout.strides));
    InjectiveIsInjective(layout);
  }
}
