/** The modified Givens rotation in exact arithmetic: Rotmg and Rotm. */
module Givens {
  import opened Reals

  const GAMMA := 4096.0
  const GAMMA_SQUARED := 16777216.0
  const INVERSE_GAMMA_SQUARED := 1.0 / 16777216.0

  /** A two-by-two matrix with the transformed weights and first coordinate. */
  datatype Rotation = Rotation(h11: real, h12: real, h21: real, h22: real, d1: real, d2: real, x1: real)

  /** What the inputs call for, before any rescaling. */
  datatype Stage =
    | Identity
    | Zeroed
    | Rotated(flag: real, rotation: Rotation)

  lemma Reassociate(a: real, b: real, c: real)
    ensures (a * b) * c == a * (b * c)
  {
  }

  lemma Cancels(u: real, a: real, b: real)
    requires u != 0.0 && u * a == u * b
    ensures a == b
  {
  }

  /** The sign of the first weighted square, and what a non-zero square rules out. */
  lemma WeightedSquare(d: real, x: real)
    ensures d >= 0.0 ==> d * x * x >= 0.0
    ensures d * x * x != 0.0 ==> d != 0.0 && x != 0.0 && d * x != 0.0
    ensures d * x != 0.0 ==> d * x * x != 0.0
    ensures x != 0.0 ==> (d * x * x > 0.0 <==> d > 0.0)
  {
    ProductSign(x, x);
    ProductSign(d, x * x);
    ProductSign(d, x);
    ProductSign(d * x, x);
    ProductSign(-d, x * x);
    Reassociate(d, x, x);
  }

  // ----- The unscaled rotation ----------------------------------------------

  /** The weighted square of the first coordinate outweighs that of the second. */
  predicate FirstDominates(d1: real, d2: real, x1: real, y1: real) {
    Abs(d1 * x1 * x1) > Abs(d2 * y1 * y1)
  }

  /** The rotation that keeps the first coordinate, given its factor. */
  function KeptFirst(u: real, d1: real, d2: real, x: real, h12: real, h21: real): Stage {
    if u > 0.0 then Rotated(0.0, Rotation(1.0, h12, h21, 1.0, d1 / u, d2 / u, x * u)) else Zeroed
  }

  function Smaller(d1: real, d2: real, x: real, h12: real, h21: real): Stage {
    KeptFirst(1.0 - h12 * h21, d1, d2, x, h12, h21)
  }

  function Larger(d1: real, d2: real, y: real, h11: real, h22: real): Stage
    requires 1.0 + h11 * h22 != 0.0
  {
    var u := 1.0 + h11 * h22;
    Rotated(1.0, Rotation(h11, 1.0, -1.0, h22, d2 / u, d1 / u, y * u))
  }

  function BaseStage(d1: real, d2: real, x1: real, y1: real): Stage {
    if d1 < 0.0 then Zeroed
    else if d2 * y1 == 0.0 then Identity
    else
      var p1, p2 := d1 * x1, d2 * y1;
      var q2 := p2 * y1;
      WeightedSquare(d1, x1);
      if FirstDominates(d1, d2, x1, y1) then
        Smaller(d1, d2, x1, p2 / p1, -y1 / x1)
      else if q2 < 0.0 then Zeroed
      else
        ProductSign(d2, y1);
        LargerFactor(d1, d2, x1, y1, p1 / p2, x1 / y1);
        Larger(d1, d2, y1, p1 / p2, x1 / y1)
  }

  /** The factor of the branch that keeps the first coordinate is positive. */
  lemma SmallerFactor(d1: real, d2: real, x: real, y: real, h12: real, h21: real)
    requires d1 >= 0.0 && FirstDominates(d1, d2, x, y)
    requires h21 * x == -y && h12 * (d1 * x) == d2 * y
    ensures 1.0 - h12 * h21 > 0.0
    ensures d1 * h12 == -(d2 * h21)
  {
    WeightedSquare(d1, x);
    var q1, u := d1 * x * x, 1.0 - h12 * h21;
    assert (h12 * (d1 * x)) * (h21 * x) == (h12 * h21) * q1;
    assert (d2 * y) * -y == -(d2 * y * y);
    assert q1 * u == q1 + d2 * y * y;
    ProductSign(q1, u);
    assert x * (d1 * h12) == d2 * y && x * -(d2 * h21) == d2 * y;
    Cancels(x, d1 * h12, -(d2 * h21));
  }

  lemma LargerFactor(d1: real, d2: real, x: real, y: real, h11: real, h22: real)
    requires d1 >= 0.0 && d2 * y != 0.0 && d2 * y * y >= 0.0
    requires h22 * y == x && h11 * (d2 * y) == d1 * x
    ensures d2 > 0.0 && 1.0 + h11 * h22 > 0.0
    ensures d2 * h11 == d1 * h22
  {
    ProductSign(d2, y);
    WeightedSquare(d2, y);
    WeightedSquare(d1, x);
    var q2, v := d2 * y * y, h11 * h22;
    assert (h11 * (d2 * y)) * (h22 * y) == v * q2;
    assert (d1 * x) * x == d1 * x * x;
    assert v * q2 >= 0.0;
    ProductSign(q2, -v);
    assert q2 * -v == -(v * q2);
    assert y * (d2 * h11) == d1 * x && y * (d1 * h22) == d1 * x;
    Cancels(y, d2 * h11, d1 * h22);
  }

  /** The matrix keeps the weighted norm of every pair. */
  ghost predicate PreservesNorm(r: Rotation, d1: real, d2: real) {
    && r.d1 * (r.h11 * r.h11) + r.d2 * (r.h21 * r.h21) == d1
    && r.d1 * (r.h11 * r.h12) + r.d2 * (r.h21 * r.h22) == 0.0
    && r.d1 * (r.h12 * r.h12) + r.d2 * (r.h22 * r.h22) == d2
  }

  /** The matrix keeps the weighted norm of every pair, annihilates the second
      coordinate of the defining pair and reports its first. */
  ghost predicate Preserves(r: Rotation, d1: real, d2: real, x1: real, y1: real) {
    && PreservesNorm(r, d1, d2)
    && r.h21 * x1 + r.h22 * y1 == 0.0
    && r.h11 * x1 + r.h12 * y1 == r.x1
  }

  /** A combination of quotients by `u`. */
  lemma Combine(u: real, d: real, e: real, g: real, h: real, total: real)
    requires u != 0.0 && d * g + e * h == u * total
    ensures (d / u) * g + (e / u) * h == total
  {
    var a, b := d / u, e / u;
    assert a * u == d && b * u == e;
    assert u * (a * g + b * h) == (a * u) * g + (b * u) * h;
    Cancels(u, a * g + b * h, total);
  }

  lemma SmallerNorm(u: real, d1: real, d2: real, h12: real, h21: real)
    requires u != 0.0 && u == 1.0 - h12 * h21 && d1 * h12 == -(d2 * h21)
    ensures (d1 / u) * (1.0 * 1.0) + (d2 / u) * (h21 * h21) == d1
    ensures (d1 / u) * (1.0 * h12) + (d2 / u) * (h21 * 1.0) == 0.0
    ensures (d1 / u) * (h12 * h12) + (d2 / u) * (1.0 * 1.0) == d2
  {
    assert d1 * h12 * h21 == -(d2 * h21) * h21 && d1 * h12 * h12 == -(d2 * h21) * h12;
    assert u * d1 == d1 - d1 * h12 * h21 && u * d2 == d2 - d2 * h12 * h21;
    Combine(u, d1, d2, 1.0 * 1.0, h21 * h21, d1);
    Combine(u, d1, d2, 1.0 * h12, h21 * 1.0, 0.0);
    Combine(u, d1, d2, h12 * h12, 1.0 * 1.0, d2);
  }

  lemma {:induction false} SmallerPreserves(d1: real, d2: real, x: real, y: real, h12: real, h21: real)
    requires d1 >= 0.0 && FirstDominates(d1, d2, x, y)
    requires h21 * x == -y && h12 * (d1 * x) == d2 * y
    ensures var stage := Smaller(d1, d2, x, h12, h21);
      && stage.Rotated? && stage.rotation.d1 > 0.0
      && Preserves(stage.rotation, d1, d2, x, y)
  {
    SmallerFactor(d1, d2, x, y, h12, h21);
    DominatingIsNonzero(d1, d2, x, y);
    hide FirstDominates;
    var u := 1.0 - h12 * h21;
    SmallerNorm(u, d1, d2, h12, h21);
    assert PreservesNorm(Rotation(1.0, h12, h21, 1.0, d1 / u, d2 / u, x * u), d1, d2);
    hide PreservesNorm;
    Reassociate(h12, h21, x);
    assert x * u == x - (h12 * h21) * x;
    assert d1 > 0.0;
    PositiveQuotient(d1, u);
  }

  lemma LargerNorm(u: real, d1: real, d2: real, h11: real, h22: real)
    requires u != 0.0 && u == 1.0 + h11 * h22 && d2 * h11 == d1 * h22
    ensures (d2 / u) * (h11 * h11) + (d1 / u) * (-1.0 * -1.0) == d1
    ensures (d2 / u) * (h11 * 1.0) + (d1 / u) * (-1.0 * h22) == 0.0
    ensures (d2 / u) * (1.0 * 1.0) + (d1 / u) * (h22 * h22) == d2
  {
    assert d2 * h11 * h11 == d1 * h22 * h11 && d2 * h11 * h22 == d1 * h22 * h22;
    assert u * d1 == d1 + d1 * h11 * h22 && u * d2 == d2 + d2 * h11 * h22;
    Combine(u, d2, d1, h11 * h11, -1.0 * -1.0, d1);
    Combine(u, d2, d1, h11 * 1.0, -1.0 * h22, 0.0);
    Combine(u, d2, d1, 1.0 * 1.0, h22 * h22, d2);
  }

  lemma {:induction false} LargerPreserves(d1: real, d2: real, x: real, y: real, h11: real, h22: real)
    requires d1 >= 0.0 && d2 * y != 0.0 && d2 * y * y >= 0.0
    requires h22 * y == x && h11 * (d2 * y) == d1 * x
    ensures 1.0 + h11 * h22 > 0.0
    ensures var stage := Larger(d1, d2, y, h11, h22);
      && stage.Rotated? && stage.rotation.d1 > 0.0
      && Preserves(stage.rotation, d1, d2, x, y)
  {
    LargerFactor(d1, d2, x, y, h11, h22);
    var u := 1.0 + h11 * h22;
    LargerNorm(u, d1, d2, h11, h22);
    Reassociate(h11, h22, y);
    assert y * u == y + (h11 * h22) * y;
    PositiveQuotient(d2, u);
  }

  /** A rotation is produced unless the second weight is negative and dominates;
      its unscaled form preserves the norm. */
  lemma {:induction false} BasePreserves(d1: real, d2: real, x1: real, y1: real)
    requires d1 >= 0.0 && d2 * y1 != 0.0
    ensures d2 != 0.0
    ensures BaseStage(d1, d2, x1, y1).Zeroed? <==> !FirstDominates(d1, d2, x1, y1) && d2 < 0.0
    ensures BaseStage(d1, d2, x1, y1).Rotated? <==> FirstDominates(d1, d2, x1, y1) || d2 > 0.0
    ensures BaseStage(d1, d2, x1, y1).Rotated? ==>
      var r := BaseStage(d1, d2, x1, y1).rotation;
      Preserves(r, d1, d2, x1, y1) && r.d1 > 0.0
  {
    hide Preserves, Smaller, Larger, FirstDominates;
    WeightedSquare(d1, x1);
    WeightedSquare(d2, y1);
    ProductSign(d2, y1);
    var p1, p2 := d1 * x1, d2 * y1;
    if FirstDominates(d1, d2, x1, y1) {
      DominatingIsNonzero(d1, d2, x1, y1);
      SmallerPreserves(d1, d2, x1, y1, p2 / p1, -y1 / x1);
    } else if d2 > 0.0 {
      LargerPreserves(d1, d2, x1, y1, p1 / p2, x1 / y1);
    }
  }

  lemma DominatingIsNonzero(d1: real, d2: real, x1: real, y1: real)
    requires FirstDominates(d1, d2, x1, y1)
    ensures d1 * x1 != 0.0 && x1 != 0.0 && d1 != 0.0
  {
    WeightedSquare(d1, x1);
  }

  lemma PositiveQuotient(a: real, u: real)
    requires u > 0.0
    ensures a > 0.0 ==> a / u > 0.0
    ensures a != 0.0 ==> a / u != 0.0
  {
    assert (a / u) * u == a;
  }
}
