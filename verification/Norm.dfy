/** The scaled Euclidean norm: the loop over strided vectors and the one over dense views. */
module Norm {
  import opened Reals
  import opened Sequences

  /** A floating-point value in exact arithmetic, with its two special cases. */
  datatype Extended = Finite(value: real) | Infinity(negative: bool) | NotANumber

  function Absolute(x: Extended): Extended {
    match x
    case Finite(value) => Finite(Abs(value))
    case Infinity(_) => Infinity(false)
    case NotANumber => NotANumber
  }

  // ----- What the norm is ---------------------------------------------------

  /** Sum of the squares of the finite values. */
  function SquareSum(values: seq<Extended>): real {
    if |values| == 0 then 0.0
    else SquareSum(Init(values)) + if Last(values).Finite? then Square(Last(values).value) else 0.0
  }

  /** Largest magnitude among the finite values. */
  function Largest(values: seq<Extended>): real {
    if |values| == 0 then 0.0
    else
      var rest := Largest(Init(values));
      if Last(values).Finite? && rest < Abs(Last(values).value) then Abs(Last(values).value) else rest
  }

  function NonZeros(values: seq<Extended>): nat {
    if |values| == 0 then 0
    else NonZeros(Init(values)) + if Last(values).Finite? && Last(values).value != 0.0 then 1 else 0
  }

  /** The last value that is not finite, without its sign; zero if there is none. */
  function LastSpecial(values: seq<Extended>): Extended {
    if |values| == 0 then Finite(0.0)
    else if Last(values).Finite? then LastSpecial(Init(values))
    else Absolute(Last(values))
  }

  predicate AnyNotANumber(values: seq<Extended>) {
    NotANumber in values
  }

  predicate AnyInfinity(values: seq<Extended>) {
    Infinity(true) in values || Infinity(false) in values
  }

  /** The norm of the finite values, free of overflow, from a square-root routine. */
  function ScaledNorm(values: seq<Extended>, root: real -> real): real {
    var scale := Largest(values);
    if scale == 0.0 then 0.0
    else
      SquareIsZero(scale);
      scale * root(SquareSum(values) / Square(scale))
  }

  function VectorNorm(values: seq<Extended>, root: real -> real): Extended {
    if LastSpecial(values).Finite? then Finite(ScaledNorm(values, root)) else LastSpecial(values)
  }

  function ViewNorm(values: seq<Extended>, root: real -> real): Extended {
    if AnyNotANumber(values) then NotANumber
    else if AnyInfinity(values) then Infinity(false)
    else Finite(ScaledNorm(values, root))
  }

  lemma SquareIsZero(x: real)
    ensures Square(x) == 0.0 <==> x == 0.0
    ensures Square(x) >= 0.0
  {
    ProductSign(x, x);
    ProductSign(-x, -x);
    assert (-x) * (-x) == x * x;
  }

  lemma {:induction false} LargestIsLargest(values: seq<Extended>)
    ensures Largest(values) >= 0.0
    ensures forall x :: x in values && x.Finite? ==> Abs(x.value) <= Largest(values)
    ensures Largest(values) > 0.0 ==> Finite(Largest(values)) in values || Finite(-Largest(values)) in values
  {
    if |values| == 0 {
    } else {
      LargestIsLargest(Init(values));
      assert values == Init(values) + [Last(values)];
    }
  }

  /** The loop's state on finite input: the largest magnitude, and the sum of the
      squares relative to it, between one and the number of values. */
  ghost predicate Accumulated(values: seq<Extended>, scale: real, sum: real) {
    && scale == Largest(values) && scale >= 0.0
    && sum * Square(scale) == SquareSum(values)
    && 1.0 <= sum
    && (scale == 0.0 ==> sum == 1.0 && NonZeros(values) == 0)
    && (scale > 0.0 ==> sum <= NonZeros(values) as real)
  }

  lemma AccumulatedNothing()
    ensures Accumulated([], 0.0, 1.0)
  {
  }

  lemma Growing(scale: real, sum: real, a: real, squares: real, ratio: real, next: real)
    requires 0.0 <= scale < a && 1.0 <= sum && sum * Square(scale) == squares
    requires ratio * a == scale && next == 1.0 + sum * ratio * ratio
    ensures next * Square(a) == squares + Square(a)
    ensures 1.0 <= next <= 1.0 + sum
    ensures scale == 0.0 ==> next == 1.0
  {
    RatioBelowOne(ratio, a, scale);
    assert (sum * ratio * ratio) * Square(a) == sum * ((ratio * a) * (ratio * a));
    var q := ratio * ratio;
    assert sum * ratio * ratio == sum * q;
    ProductSign(sum, q);
    ProductSign(sum, 1.0 - q);
  }

  lemma Steady(scale: real, sum: real, a: real, squares: real, ratio: real, next: real)
    requires 0.0 < a <= scale && sum * Square(scale) == squares
    requires ratio * scale == a && next == sum + ratio * ratio
    ensures next * Square(scale) == squares + Square(a)
    ensures sum <= next <= sum + 1.0
  {
    RatioBelowOne(ratio, scale, a);
    assert (ratio * ratio) * Square(scale) == (ratio * scale) * (ratio * scale);
  }

  lemma RatioBelowOne(ratio: real, a: real, b: real)
    requires 0.0 < a && 0.0 <= b <= a && ratio * a == b
    ensures 0.0 <= ratio <= 1.0 && 0.0 <= ratio * ratio <= 1.0
  {
    assert (ratio - 1.0) * a == ratio * a - a;
    assert (-ratio) * a == -(ratio * a);
    ProductSign(ratio - 1.0, a);
    ProductSign(-ratio, a);
    ProductSign(ratio, ratio);
    ProductSign(ratio, 1.0 - ratio);
  }

  lemma SameSquare(x: real)
    ensures Square(Abs(x)) == Square(x)
    ensures Abs(x) == 0.0 <==> x == 0.0
  {
  }

  /** One value is added to the loop's state. */
  lemma {:induction false} AddValue(values: seq<Extended>, scale: real, sum: real, x: real, ratio: real, next: real)
    requires Accumulated(values, scale, sum)
    ensures Abs(x) == 0.0 ==> Accumulated(values + [Finite(x)], scale, sum)
    ensures 0.0 < Abs(x) <= scale && ratio * scale == Abs(x) && next == sum + ratio * ratio ==>
      Accumulated(values + [Finite(x)], scale, next)
    ensures scale < Abs(x) && ratio * Abs(x) == scale && next == 1.0 + sum * ratio * ratio ==>
      Accumulated(values + [Finite(x)], Abs(x), next)
  {
    AppendedValue(values, x);
    var a, squares := Abs(x), SquareSum(values);
    hide SquareSum, NonZeros, Largest, Abs, Square;
    if scale < a && ratio * a == scale && next == 1.0 + sum * ratio * ratio {
      Growing(scale, sum, a, squares, ratio, next);
    } else if 0.0 < a <= scale && ratio * scale == a && next == sum + ratio * ratio {
      Steady(scale, sum, a, squares, ratio, next);
    }
  }

  lemma AppendedValue(values: seq<Extended>, x: real)
    ensures var a, all := Abs(x), values + [Finite(x)];
      && a >= 0.0 && (a == 0.0 ==> Square(a) == 0.0)
      && SquareSum(all) == SquareSum(values) + Square(a)
      && NonZeros(all) == NonZeros(values) + (if a == 0.0 then 0 else 1)
      && Largest(all) == if Largest(values) < a then a else Largest(values)
  {
    var all := values + [Finite(x)];
    assert Init(all) == values && Last(all) == Finite(x);
    SameSquare(x);
    assert Square(0.0) == 0.0;
  }

  lemma {:induction false} AddSpecial(values: seq<Extended>, scale: real, sum: real, x: Extended)
    requires Accumulated(values, scale, sum) && !x.Finite?
    ensures Accumulated(values + [x], scale, sum)
  {
    var all := values + [x];
    assert Init(all) == values && Last(all) == x;
  }

  /** The state determines the norm. */
  lemma AccumulatedNorm(values: seq<Extended>, scale: real, sum: real, root: real -> real)
    requires Accumulated(values, scale, sum)
    ensures ScaledNorm(values, root) == if scale == 0.0 then 0.0 else scale * root(sum)
  {
    SquareIsZero(scale);
    if scale != 0.0 {
      assert SquareSum(values) / Square(scale) == sum;
    }
  }

  // ----- The loop over strided vectors --------------------------------------

  /** The state of the vector loop: special values displace it, and only they displace each other. */
  ghost predicate VectorState(values: seq<Extended>, scale: Extended, sum: Extended) {
    match LastSpecial(values)
    case Finite(_) => scale.Finite? && sum.Finite? && Accumulated(values, scale.value, sum.value)
    case Infinity(_) => scale == Infinity(false) && sum == Finite(1.0)
    case NotANumber => scale == NotANumber && sum == NotANumber
  }

  lemma NothingSeen()
    ensures VectorState([], Finite(0.0), Finite(1.0))
  {
    AccumulatedNothing();
  }

  /** Adds one value, given the values seen so far. */
  method AddScaledSquare(value: Extended, scale: Extended, sum: Extended, ghost values: seq<Extended>)
    returns (newScale: Extended, newSum: Extended)
    requires VectorState(values, scale, sum)
    ensures VectorState(values + [value], newScale, newSum)
  {
    ghost var all := values + [value];
    assert Init(all) == values && Last(all) == value;
    newScale, newSum := scale, sum;
    hide Accumulated;
    var absolute := Absolute(value);
    if absolute.NotANumber? {
      newScale, newSum := absolute, absolute;
    } else if absolute.Infinity? {
      newScale, newSum := absolute, Finite(1.0);
    } else if !scale.Finite? {
      return;
    } else {
      var s, q := AddMagnitude(scale.value, sum.value, absolute.value, value.value, values);
      newScale, newSum := Finite(s), Finite(q);
    }
  }

  /** Adds the magnitude `a` of the finite value `x`. */
  method AddMagnitude(scale: real, sum: real, a: real, ghost x: real, ghost values: seq<Extended>)
    returns (newScale: real, newSum: real)
    requires Accumulated(values, scale, sum) && a == Abs(x)
    ensures Accumulated(values + [Finite(x)], newScale, newSum)
  {
    hide Accumulated;
    AddFinite(values, scale, sum, x);
    newScale, newSum := scale, sum;
    if a == 0.0 {
      return;
    }
    if scale < a {
      var ratio := scale / a;
      newSum := 1.0 + sum * ratio * ratio;
      AddValue(values, scale, sum, x, ratio, newSum);
      newScale := a;
    } else {
      var ratio := a / scale;
      newSum := sum + ratio * ratio;
      AddValue(values, scale, sum, x, ratio, newSum);
    }
  }

  lemma AddFinite(values: seq<Extended>, scale: real, sum: real, x: real)
    requires Accumulated(values, scale, sum)
    ensures scale >= 0.0
    ensures x == 0.0 ==> Accumulated(values + [Finite(x)], scale, sum)
  {
    AddValue(values, scale, sum, x, 0.0, 0.0);
  }

  /** The norm the vector loop returns from its state. */
  method FinishNorm(
      scale: Extended, sum: Extended, root: real -> real, ghost values: seq<Extended>)
    returns (norm: Extended)
    requires VectorState(values, scale, sum)
    ensures norm == VectorNorm(values, root)
  {
    LastSpecialIs(values);
    if !scale.Finite? {
      norm := scale;
    } else {
      AccumulatedNorm(values, scale.value, sum.value, root);
      norm := if scale.value == 0.0 then Finite(0.0) else Finite(scale.value * root(sum.value));
    }
  }

  // ----- What the loops promise ---------------------------------------------

  ghost predicate IsRoot(root: real -> real) {
    forall x :: x >= 0.0 ==> root(x) >= 0.0 && Square(root(x)) == x
  }

  /** The norm of finite values is the non-negative number whose square is the sum of squares. */
  lemma {:induction false} NormSquared(values: seq<Extended>, root: real -> real)
    requires IsRoot(root)
    ensures ScaledNorm(values, root) >= 0.0 && Square(ScaledNorm(values, root)) == SquareSum(values)
  {
    var scale, sum := State(values);
    AccumulatedNorm(values, scale, sum, root);
    SquareOfProduct(scale, root(sum));
    ProductSign(scale, root(sum));
    assert Square(root(sum)) == sum;
  }

  lemma SquareOfProduct(a: real, b: real)
    ensures Square(a * b) == Square(b) * Square(a)
    ensures Square(0.0) == 0.0
  {
  }

  /** Every sequence has a state; its relative sum of squares is at most the number of values. */
  lemma {:induction false} State(values: seq<Extended>) returns (scale: real, sum: real)
    ensures Accumulated(values, scale, sum)
    ensures 1.0 <= sum && (sum <= |values| as real || sum == 1.0)
  {
    if |values| == 0 {
      scale, sum := 0.0, 1.0;
      AccumulatedNothing();
    } else {
      var last := Last(values);
      scale, sum := State(Init(values));
      assert values == Init(values) + [last];
      if last.Finite? {
        var a := Abs(last.value);
        var ratio := if scale < a then scale / a else if a > 0.0 then a / scale else 0.0;
        var next := if scale < a then 1.0 + sum * ratio * ratio else sum + ratio * ratio;
        AddValue(Init(values), scale, sum, last.value, ratio, next);
        scale, sum := if scale < a then a else scale, if a == 0.0 then sum else next;
      } else {
        AddSpecial(Init(values), scale, sum, last);
      }
      NonZerosBound(values);
    }
  }

  lemma {:induction false} NonZerosBound(values: seq<Extended>)
    ensures NonZeros(values) <= |values|
  {
    if |values| == 0 {
    } else {
      NonZerosBound(Init(values));
    }
  }

  lemma {:induction false} LastSpecialIs(values: seq<Extended>)
    ensures LastSpecial(values).Finite? <==> !AnyNotANumber(values) && !AnyInfinity(values)
    ensures LastSpecial(values).NotANumber? ==> AnyNotANumber(values)
    ensures LastSpecial(values).Infinity? ==> AnyInfinity(values) && LastSpecial(values) == Infinity(false)
  {
    if |values| == 0 {
    } else {
      LastSpecialIs(Init(values));
      assert values == Init(values) + [Last(values)];
    }
  }

  /** The two loops agree exactly on the inputs where no infinity follows every
      NaN; in particular on every input without NaN. */
  lemma {:induction false} NormsAgree(values: seq<Extended>, root: real -> real)
    ensures VectorNorm(values, root) == ViewNorm(values, root)
            <==> (AnyNotANumber(values) ==> LastSpecial(values) == NotANumber)
  {
    LastSpecialIs(values);
  }

  /** A NaN followed by an infinity tells them apart. */
  lemma NormsDiffer(root: real -> real)
    ensures VectorNorm([NotANumber, Infinity(true)], root) == Infinity(false)
    ensures ViewNorm([NotANumber, Infinity(true)], root) == NotANumber
  {
    assert NotANumber in [NotANumber, Infinity(true)];
  }
}
