/** Positions of a box of coordinates under non-negative strides, axis by axis. */
module MixedRadix {
  import opened Checked
  import opened Sequences

  datatype Axis = Axis(extent: int, stride: int)

  predicate IsAxis(a: Axis) {
    1 <= a.extent && 0 <= a.stride
  }

  predicate AreAxes(axes: seq<Axis>) {
    forall k :: 0 <= k < |axes| ==> IsAxis(axes[k])
  }

  /** One more than the largest position. */
  function Covered(axes: seq<Axis>): int {
    if axes == [] then 1 else Covered(Init(axes)) + (Last(axes).extent - 1) * Last(axes).stride
  }

  /** Number of coordinates in the box. */
  function Size(axes: seq<Axis>): int {
    if axes == [] then 1 else Size(Init(axes)) * Last(axes).extent
  }

  function Position(axes: seq<Axis>, x: seq<int>): int
    requires |x| == |axes|
  {
    if axes == [] then 0 else Position(Init(axes), Init(x)) + Last(x) * Last(axes).stride
  }

  predicate InBox(axes: seq<Axis>, x: seq<int>) {
    |x| == |axes| && forall k :: 0 <= k < |axes| ==> 0 <= x[k] < axes[k].extent
  }

  /** Every stride clears everything the earlier axes reach. */
  predicate Separated(axes: seq<Axis>) {
    forall k :: 0 <= k < |axes| ==> Covered(axes[..k]) <= axes[k].stride
  }

  lemma SeparatedInit(axes: seq<Axis>)
    requires axes != [] && Separated(axes)
    ensures Separated(Init(axes)) && Covered(Init(axes)) <= Last(axes).stride
  {
    forall k | 0 <= k < |Init(axes)|
      ensures Covered(Init(axes)[..k]) <= Init(axes)[k].stride
    {
      assert Init(axes)[..k] == axes[..k];
    }
  }

  lemma {:induction false} PositionBounds(axes: seq<Axis>, x: seq<int>)
    requires AreAxes(axes) && InBox(axes, x)
    ensures 0 <= Position(axes, x) < Covered(axes)
  {
    if axes == [] {
    } else {
      PositionBounds(Init(axes), Init(x));
      MonotoneProduct(0, Last(x), Last(axes).stride);
      MonotoneProduct(Last(x), Last(axes).extent - 1, Last(axes).stride);
    }
  }

  lemma NextMultiple(stride: int, a: int, a': int)
    requires 0 <= stride && a < a'
    ensures a * stride + stride <= a' * stride
  {
    MonotoneProduct(a + 1, a', stride);
  }

  /** A remainder below the stride and its quotient are determined by the total. */
  lemma {:induction false} QuotientUnique(stride: int, p: int, a: int, p': int, a': int)
    requires 0 <= p < stride && 0 <= p' < stride
    requires p + a * stride == p' + a' * stride
    ensures p == p' && a == a'
  {
    if a < a' {
      NextMultiple(stride, a, a');
    } else if a' < a {
      NextMultiple(stride, a', a);
    }
  }

  lemma BoxInit(axes: seq<Axis>, x: seq<int>)
    requires axes != [] && AreAxes(axes) && InBox(axes, x)
    ensures |x| == |axes| && AreAxes(Init(axes)) && InBox(Init(axes), Init(x)) && IsAxis(Last(axes))
    ensures Position(axes, x) == Position(Init(axes), Init(x)) + Last(x) * Last(axes).stride
  {
  }

  /** Separated axes never send two coordinates to one position. */
  lemma {:induction false} SeparatedIsInjective(axes: seq<Axis>, x: seq<int>, y: seq<int>)
    requires AreAxes(axes) && Separated(axes) && InBox(axes, x) && InBox(axes, y)
    requires Position(axes, x) == Position(axes, y)
    ensures x == y
  {
    if axes == [] {
    } else {
      hide Covered, Separated;
      SeparatedInit(axes);
      BoxInit(axes, x);
      BoxInit(axes, y);
      hide InBox;
      PositionBounds(Init(axes), Init(x));
      PositionBounds(Init(axes), Init(y));
      var p, p' := Position(Init(axes), Init(x)), Position(Init(axes), Init(y));
      QuotientUnique(Last(axes).stride, p, Last(x), p', Last(y));
      SeparatedIsInjective(Init(axes), Init(x), Init(y));
      assert x == Init(x) + [Last(x)] && y == Init(y) + [Last(y)];
    }
  }

  lemma {:induction false} SizePositive(axes: seq<Axis>)
    requires AreAxes(axes)
    ensures 1 <= Size(axes)
  {
    if axes == [] {
    } else {
      SizePositive(Init(axes));
      MonotoneProduct(1, Size(Init(axes)), Last(axes).extent);
    }
  }

  /** Separated axes reach at least as far as they have coordinates. */
  lemma {:induction false} SeparatedCoversSize(axes: seq<Axis>)
    requires AreAxes(axes) && Separated(axes)
    ensures Size(axes) <= Covered(axes)
    ensures axes != [] && Covered(axes) == Size(axes) && Last(axes).extent > 1 ==>
              Covered(Init(axes)) == Size(Init(axes)) == Last(axes).stride
  {
    if axes == [] {
    } else {
      SeparatedInit(axes);
      SeparatedCoversSize(Init(axes));
      var e, s, c, n := Last(axes).extent, Last(axes).stride, Covered(Init(axes)), Size(Init(axes));
      assert Covered(axes) == c + (e - 1) * s;
      assert n * e == n + (e - 1) * n;
      NextStride(e - 1, n, s, c);
    }
  }

  lemma NextStride(m: int, n: int, s: int, c: int)
    requires 0 <= m && n <= c <= s
    ensures n + m * n <= c + m * s
    ensures m > 0 && n + m * n == c + m * s ==> n == s == c
  {
    MonotoneProduct(n, s, m);
    assert m * n == n * m && m * s == s * m;
    if m > 0 && n < s {
      MonotoneProduct(n + 1, s, m);
    }
  }

  lemma {:induction false} DigitInRange(position: int, stride: int, extent: int)
    requires 0 < stride && 0 <= position < extent * stride
    ensures 0 <= position / stride < extent && 0 <= position % stride < stride
    ensures position == position % stride + (position / stride) * stride
  {
    var digit := position / stride;
    assert position == position % stride + digit * stride;
    if digit >= extent {
      MonotoneProduct(extent, digit, stride);
    } else if digit < 0 {
      MonotoneProduct(digit, -1, stride);
    }
  }

  lemma AppendDigit(axes: seq<Axis>, y: seq<int>, digit: int)
    requires axes != [] && InBox(Init(axes), y) && 0 <= digit < Last(axes).extent
    ensures InBox(axes, y + [digit])
    ensures Position(axes, y + [digit]) == Position(Init(axes), y) + digit * Last(axes).stride
  {
    assert Init(y + [digit]) == y;
  }

  /** When the reach equals the number of coordinates, every position below it is taken. */
  lemma {:induction false} TightIsSurjective(axes: seq<Axis>, position: int) returns (x: seq<int>)
    requires AreAxes(axes) && Separated(axes) && Covered(axes) == Size(axes)
    requires forall k :: 0 <= k < |axes| ==> axes[k].extent > 1
    requires 0 <= position < Size(axes)
    ensures InBox(axes, x) && Position(axes, x) == position
  {
    if axes == [] {
      x := [];
    } else {
      hide Covered, Separated, Position;
      SeparatedInit(axes);
      SeparatedCoversSize(axes);
      var stride := Last(axes).stride;
      SizePositive(Init(axes));
      assert Size(axes) == Last(axes).extent * stride;
      DigitInRange(position, stride, Last(axes).extent);
      var y := TightIsSurjective(Init(axes), position % stride);
      AppendDigit(axes, y, position / stride);
      x := y + [position / stride];
    }
  }

  // ----- The converse: a bijection has separated axes ------------------------

  predicate SortedByStride(axes: seq<Axis>) {
    forall i, j :: 0 <= i < j < |axes| ==> axes[i].stride <= axes[j].stride
  }

  ghost predicate Injective(axes: seq<Axis>) {
    forall x, y :: InBox(axes, x) && InBox(axes, y) && Position(axes, x) == Position(axes, y) ==> x == y
  }

  ghost predicate Taken(axes: seq<Axis>, p: int) {
    exists x :: InBox(axes, x) && Position(axes, x) == p
  }

  /** The taken positions are exactly those below the number of coordinates. */
  ghost predicate Onto(axes: seq<Axis>) {
    forall p :: Taken(axes, p) <==> 0 <= p < Size(axes)
  }

  function Zeros(n: nat): seq<int> {
    seq(n, _ => 0)
  }

  lemma {:induction false} PositionOfZeros(axes: seq<Axis>)
    ensures Position(axes, Zeros(|axes|)) == 0
  {
    if axes == [] {
    } else {
      PositionOfZeros(Init(axes));
      assert Init(Zeros(|axes|)) == Zeros(|Init(axes)|);
    }
  }

  /** Coordinates that vanish beyond the first `k` axes have the position of their prefix. */
  lemma {:induction false} PositionOfPrefix(axes: seq<Axis>, x: seq<int>, k: nat)
    requires |x| == |axes| && k <= |axes|
    requires forall i :: k <= i < |axes| ==> x[i] == 0
    ensures Position(axes, x) == Position(axes[..k], x[..k])
  {
    if k == |axes| {
      assert axes[..k] == axes && x[..k] == x;
    } else {
      PositionOfPrefix(Init(axes), Init(x), k);
      assert Init(axes)[..k] == axes[..k] && Init(x)[..k] == x[..k];
    }
  }

  /** A non-zero coordinate beyond axis `k` already exceeds that axis' stride. */
  lemma {:induction false} PositionReaches(axes: seq<Axis>, x: seq<int>, k: nat)
    requires AreAxes(axes) && InBox(axes, x) && k < |axes| && x[k] > 0
    ensures axes[k].stride <= Position(axes, x)
  {
    MonotoneProduct(0, Last(x), Last(axes).stride);
    if k == |axes| - 1 {
      PositionBounds(Init(axes), Init(x));
      MonotoneProduct(1, Last(x), Last(axes).stride);
    } else {
      PositionReaches(Init(axes), Init(x), k);
    }
  }

  lemma {:induction false} SizeGrows(axes: seq<Axis>, k: nat)
    requires AreAxes(axes) && k < |axes| && axes[k].extent > 1
    ensures Size(axes[..k]) < Size(axes)
  {
    SizePositive(Init(axes));
    if k == |axes| - 1 {
      MonotoneProduct(2, Last(axes).extent, Size(Init(axes)));
      assert axes[..k] == Init(axes);
      assert Size(axes) == Last(axes).extent * Size(Init(axes));
    } else {
      SizeGrows(Init(axes), k);
      assert Init(axes)[..k] == axes[..k];
      MonotoneProduct(1, Last(axes).extent, Size(Init(axes)));
      assert Size(axes) == Last(axes).extent * Size(Init(axes));
    }
  }

  /** Two coordinates of the first `k + 1` axes with equal positions refute injectivity. */
  lemma {:induction false} Collision(axes: seq<Axis>, k: nat, y: seq<int>)
    requires AreAxes(axes) && k < |axes| && axes[k].extent > 1
    requires InBox(axes[..k], y) && Position(axes[..k], y) == axes[k].stride
    ensures !Injective(axes)
  {
    var x, unit := y + Zeros(|axes| - k), Zeros(|axes|)[k := 1];
    PositionOfPrefix(axes, x, k);
    assert x[..k] == y;
    PositionOfUnit(axes, k);
    assert InBox(axes, x) by {
      forall i | 0 <= i < |axes|
        ensures 0 <= x[i] < axes[i].extent
      {
        assert i < k ==> axes[..k][i] == axes[i];
      }
    }
    assert InBox(axes, unit) && x[k] != unit[k];
  }

  lemma PositionOfUnit(axes: seq<Axis>, k: nat)
    requires k < |axes|
    ensures Position(axes, Zeros(|axes|)[k := 1]) == axes[k].stride
  {
    var unit := Zeros(|axes|)[k := 1];
    PositionOfPrefix(axes, unit, k + 1);
    PositionOfZeros(axes[..k]);
    assert Init(axes[..k + 1]) == axes[..k] && Init(unit[..k + 1]) == Zeros(k);
  }

  /** Sorted strides that jump past the first `k` axes leave their size unreached. */
  lemma {:induction false} Gap(axes: seq<Axis>, k: nat)
    requires AreAxes(axes) && SortedByStride(axes) && k < |axes|
    requires Covered(axes[..k]) == Size(axes[..k]) < axes[k].stride
    ensures !Taken(axes, Size(axes[..k]))
  {
    forall x | InBox(axes, x)
      ensures Position(axes, x) != Size(axes[..k])
    {
      if i :| k <= i < |axes| && x[i] > 0 {
        PositionReaches(axes, x, i);
      } else {
        PositionOfPrefix(axes, x, k);
        PositionBounds(axes[..k], x[..k]);
      }
    }
  }

  /** The next stride of a bijection is exactly the number of coordinates so far. */
  lemma {:induction false} NextStrideIsSize(axes: seq<Axis>, k: nat)
    requires AreAxes(axes) && SortedByStride(axes) && Injective(axes) && Onto(axes)
    requires forall i :: 0 <= i < |axes| ==> axes[i].extent > 1
    requires k < |axes| && Separated(axes[..k]) && Covered(axes[..k]) == Size(axes[..k])
    ensures axes[k].stride == Size(axes[..k])
  {
    hide Injective, Separated;
    var size := Size(axes[..k]);
    SizePositive(axes[..k]);
    if axes[k].stride < size {
      var y := TightIsSurjective(axes[..k], axes[k].stride);
      Collision(axes, k, y);
    } else if size < axes[k].stride {
      SizeGrows(axes, k);
      Gap(axes, k);
    }
  }

  lemma {:induction false} BijectionIsTightUpTo(axes: seq<Axis>, k: nat)
    requires AreAxes(axes) && SortedByStride(axes) && Injective(axes) && Onto(axes)
    requires forall i :: 0 <= i < |axes| ==> axes[i].extent > 1
    requires k <= |axes|
    ensures Separated(axes[..k]) && Covered(axes[..k]) == Size(axes[..k])
  {
    if k > 0 {
      hide Injective, Onto, SortedByStride, Separated;
      BijectionIsTightUpTo(axes, k - 1);
      NextStrideIsSize(axes, k - 1);
      assert Init(axes[..k]) == axes[..k - 1];
      AppendTight(axes[..k], Size(axes[..k - 1]));
    } else {
      assert axes[..0] == [];
    }
  }

  lemma {:induction false} AppendTight(axes: seq<Axis>, n: int)
    requires axes != [] && Separated(Init(axes)) && Covered(Init(axes)) == Size(Init(axes)) == n == Last(axes).stride
    ensures Separated(axes) && Covered(axes) == Size(axes)
  {
    forall k | 0 <= k < |axes|
      ensures Covered(axes[..k]) <= axes[k].stride
    {
      if k < |axes| - 1 {
        assert Init(axes)[..k] == axes[..k] && Init(axes)[k] == axes[k];
      }
    }
    assert n + (Last(axes).extent - 1) * n == n * Last(axes).extent;
  }

  /** Sorted axes of extent above one are a bijection onto their size exactly
      when they are separated and tight. */
  lemma {:induction false} BijectionIffTight(axes: seq<Axis>)
    requires AreAxes(axes) && SortedByStride(axes)
    requires forall i :: 0 <= i < |axes| ==> axes[i].extent > 1
    ensures Injective(axes) && Onto(axes) <==> Separated(axes) && Covered(axes) == Size(axes)
  {
    if Separated(axes) && Covered(axes) == Size(axes) {
      forall x, y | InBox(axes, x) && InBox(axes, y) && Position(axes, x) == Position(axes, y)
        ensures x == y
      {
        SeparatedIsInjective(axes, x, y);
      }
      TightIsOnto(axes);
    } else if Injective(axes) && Onto(axes) {
      BijectionIsTight(axes);
    }
  }

  lemma BijectionIsTight(axes: seq<Axis>)
    requires AreAxes(axes) && SortedByStride(axes) && Injective(axes) && Onto(axes)
    requires forall i :: 0 <= i < |axes| ==> axes[i].extent > 1
    ensures Separated(axes) && Covered(axes) == Size(axes)
  {
    hide Injective, Onto, Separated;
    assert axes[..|axes|] == axes;
    BijectionIsTightUpTo(axes, |axes|);
  }

  lemma TightIsOnto(axes: seq<Axis>)
    requires AreAxes(axes) && Separated(axes) && Covered(axes) == Size(axes)
    requires forall i :: 0 <= i < |axes| ==> axes[i].extent > 1
    ensures Onto(axes)
  {
    forall p
      ensures Taken(axes, p) <==> 0 <= p < Size(axes)
    {
      if 0 <= p < Size(axes) {
        var x := TightIsSurjective(axes, p);
      }
      if Taken(axes, p) {
        var x :| InBox(axes, x) && Position(axes, x) == p;
        PositionBounds(axes, x);
      }
    }
  }
}
