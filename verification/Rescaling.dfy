/** The rescaling loops of Rotmg, and exactly when its result is still a rotation. */
module Rescaling {
  import opened Reals
  import opened Givens

  predicate OutOfRange(d: real) {
    d != 0.0 && (Abs(d) <= INVERSE_GAMMA_SQUARED || Abs(d) >= GAMMA_SQUARED)
  }

  function Rescaled(d: real): real {
    if Abs(d) <= INVERSE_GAMMA_SQUARED then d * GAMMA_SQUARED else d / GAMMA_SQUARED
  }

  /** What one iteration multiplies the row by. */
  function Factor(d: real): real {
    if Abs(d) <= INVERSE_GAMMA_SQUARED then 1.0 / GAMMA else GAMMA
  }

  /** Distance from the accepted range; every iteration decreases it. */
  function Distance(d: real): int {
    if d == 0.0 then 0
    else if Abs(d) <= INVERSE_GAMMA_SQUARED then (1.0 / Abs(d)).Floor
    else if Abs(d) >= GAMMA_SQUARED then Abs(d).Floor
    else 0
  }

  lemma Reciprocal(a: real, b: real)
    requires 0.0 < a <= b
    ensures 1.0 / b <= 1.0 / a && 0.0 < 1.0 / b
  {
    var p, q := 1.0 / a, 1.0 / b;
    assert p * a == 1.0 && q * b == 1.0;
    ProductSign(b, q);
    ProductSign(q, b - a);
    ProductSign(a, q - p);
  }

  /** Both loops terminate. */
  lemma {:induction false} DistanceDecreases(d: real)
    requires OutOfRange(d)
    ensures 0 <= Distance(Rescaled(d)) < Distance(d)
    ensures Rescaled(d) != 0.0
    ensures OutOfRange(Rescaled(d)) ==> Factor(Rescaled(d)) == Factor(d)
    ensures d > 0.0 ==> Rescaled(d) > 0.0
  {
    var a := Abs(d);
    if a <= INVERSE_GAMMA_SQUARED {
      assert Abs(Rescaled(d)) == a * GAMMA_SQUARED;
      Reciprocal(a, INVERSE_GAMMA_SQUARED);
      assert 1.0 / INVERSE_GAMMA_SQUARED == GAMMA_SQUARED;
      var r := 1.0 / a;
      assert (r / GAMMA_SQUARED) * (a * GAMMA_SQUARED) == r * a;
      QuotientIs(a * GAMMA_SQUARED, r / GAMMA_SQUARED);
    } else {
      assert Abs(Rescaled(d)) == a / GAMMA_SQUARED;
    }
  }

  lemma QuotientIs(a: real, q: real)
    requires a != 0.0 && q * a == 1.0
    ensures 1.0 / a == q
  {
  }

  function Iterations(d: real): nat
    decreases Distance(d)
  {
    if !OutOfRange(d) then 0
    else
      DistanceDecreases(d);
      1 + Iterations(Rescaled(d))
  }

  function Power(s: real, n: nat): real {
    if n == 0 then 1.0 else Power(s, n - 1) * s
  }

  /** Row factor after the whole loop. */
  function Total(d: real): real {
    Power(Factor(d), Iterations(d))
  }

  lemma {:induction false} PowerPositive(s: real, n: nat)
    requires s == GAMMA || s == 1.0 / GAMMA
    ensures Power(s, n) > 0.0
    ensures s == GAMMA ==> Power(s, n) >= 1.0 && (n > 0 ==> Power(s, n) >= GAMMA)
    ensures s != GAMMA ==> Power(s, n) <= 1.0 && (n > 0 ==> Power(s, n) <= 1.0 / GAMMA)
  {
    if n == 0 {
    } else {
      PowerPositive(s, n - 1);
    }
  }

  lemma FactorIs(d: real)
    ensures Factor(d) == GAMMA || Factor(d) == 1.0 / GAMMA
  {
  }

  // ----- The finished rotation ----------------------------------------------

  /** Scales the rows and un-scales the weights. */
  function ScaleRows(b: Rotation, s: real, t: real): Rotation
    requires s != 0.0 && t != 0.0
  {
    ProductSign(s, s);
    ProductSign(t, t);
    Rotation(b.h11 * s, b.h12 * s, b.h21 * t, b.h22 * t, b.d1 / (s * s), b.d2 / (t * t), b.x1 * s)
  }

  lemma TotalPositive(d: real)
    ensures Total(d) > 0.0
  {
    PowerPositive(Factor(d), Iterations(d));
  }

  /** The entries a correct rescaling of `b` has. */
  function Correct(b: Rotation): Rotation {
    TotalPositive(b.d1);
    TotalPositive(b.d2);
    ScaleRows(b, Total(b.d1), Total(b.d2))
  }

  /** The result of Rotmg for an unscaled rotation `b`.  From the second
      iteration on, whichever loop runs it, the off-diagonal entries are set
      back to one and minus one before the row is scaled. */
  function Finished(b: Rotation): Rotation {
    if Iterations(b.d1) + Iterations(b.d2) <= 1 then Correct(b)
    else if Iterations(b.d2) >= 1 then Correct(b).(h12 := 1.0, h21 := -Factor(b.d2))
    else Correct(b).(h12 := Factor(b.d1), h21 := -1.0)
  }

  lemma RowScales(d: real, s: real, g: real, h: real)
    requires s != 0.0
    ensures s * s != 0.0
    ensures (d / (s * s)) * ((g * s) * (h * s)) == d * (g * h)
  {
    ProductSign(s, s);
    var w := s * s;
    assert (g * s) * (h * s) == (g * h) * w;
    assert (d / w) * w == d;
    assert (d / w) * ((g * h) * w) == ((d / w) * w) * (g * h);
  }

  lemma AnnihilationScales(h: real, g: real, t: real, x: real, y: real)
    ensures (h * t) * x + (g * t) * y == t * (h * x + g * y)
  {
  }

  /** Scaling the rows and un-scaling the weights keeps every property. */
  lemma {:induction false} ScaledPreserves(b: Rotation, s: real, t: real, d1: real, d2: real, x1: real, y1: real)
    requires Preserves(b, d1, d2, x1, y1) && s != 0.0 && t != 0.0
    ensures Preserves(ScaleRows(b, s, t), d1, d2, x1, y1)
  {
    RowScales(b.d1, s, b.h11, b.h11);
    RowScales(b.d1, s, b.h11, b.h12);
    RowScales(b.d1, s, b.h12, b.h12);
    RowScales(b.d2, t, b.h21, b.h21);
    RowScales(b.d2, t, b.h21, b.h22);
    RowScales(b.d2, t, b.h22, b.h22);
    AnnihilationScales(b.h21, b.h22, t, x1, y1);
    AnnihilationScales(b.h11, b.h12, s, x1, y1);
  }

  lemma CorrectPreserves(b: Rotation, d1: real, d2: real, x1: real, y1: real)
    requires Preserves(b, d1, d2, x1, y1)
    ensures Preserves(Correct(b), d1, d2, x1, y1)
  {
    hide Preserves, Total, ScaleRows;
    TotalPositive(b.d1);
    TotalPositive(b.d2);
    ScaledPreserves(b, Total(b.d1), Total(b.d2), d1, d2, x1, y1);
  }

  // ----- Exactly when the finished matrix is right ---------------------------

  lemma SquareRoots(a: real, b: real)
    requires a * a == b * b
    ensures a == b || a == -b
  {
    assert (a - b) * (a + b) == 0.0;
    ProductSign(a - b, a + b);
  }

  lemma CancelProduct(c: real, a: real, b: real)
    requires c != 0.0 && (c * a == c * b || a * c == b * c)
    ensures a == b
  {
    assert c * a == a * c && c * b == b * c;
    Cancels(c, a, b);
  }

  /** With a non-zero first coordinate, the annihilation fixes the lower entry
      and the cross term the upper one. */
  lemma {:induction false} DeterminedByCoordinate(
      r: Rotation, h12: real, h21: real, d1: real, d2: real, x1: real, y1: real)
    requires Preserves(r, d1, d2, x1, y1) && Preserves(r.(h12 := h12, h21 := h21), d1, d2, x1, y1)
    requires r.d1 != 0.0 && x1 != 0.0 && r.h11 != 0.0
    ensures h12 == r.h12 && h21 == r.h21
  {
    CancelProduct(x1, h21, r.h21);
    CancelProduct(r.d1, r.h11 * h12, r.h11 * r.h12);
    CancelProduct(r.h11, h12, r.h12);
  }

  lemma SameSignRoots(a: real, b: real)
    requires a * a == b * b && (a > 0.0 <==> b > 0.0)
    ensures a == b
  {
    SquareRoots(a, b);
  }

  /** Off-diagonal entries of known signs are fixed by the weighted columns. */
  lemma {:induction false} DeterminedBySign(r: Rotation, h12: real, h21: real, d1: real, d2: real)
    requires PreservesNorm(r, d1, d2) && PreservesNorm(r.(h12 := h12, h21 := h21), d1, d2)
    requires r.d1 != 0.0 && h12 > 0.0 && r.h12 > 0.0
    requires h21 == r.h21 || (r.d2 != 0.0 && h21 < 0.0 && r.h21 < 0.0)
    ensures h12 == r.h12 && h21 == r.h21
  {
    CancelProduct(r.d1, h12 * h12, r.h12 * r.h12);
    SameSignRoots(h12, r.h12);
    if h21 != r.h21 {
      CancelProduct(r.d2, h21 * h21, r.h21 * r.h21);
      assert (-h21) * (-h21) == (-r.h21) * (-r.h21);
      SameSignRoots(-h21, -r.h21);
    }
  }

  /** The overwritten entries happen to be the right ones. */
  ghost predicate EntriesSurvive(b: Rotation) {
    Finished(b).h12 == Correct(b).h12 && Finished(b).h21 == Correct(b).h21
  }

  /** For the branch that keeps the first coordinate. */
  lemma {:induction false} SmallerSurvives(b: Rotation, d1: real, d2: real, x1: real, y1: real)
    requires Preserves(b, d1, d2, x1, y1) && b.h11 == 1.0 && b.d1 > 0.0 && x1 != 0.0
    ensures Preserves(Finished(b), d1, d2, x1, y1) <==> EntriesSurvive(b)
  {
    hide Preserves, ScaleRows, Total, Iterations;
    CorrectPreserves(b, d1, d2, x1, y1);
    CorrectEntries(b);
    assert Finished(b) == Correct(b).(h12 := Finished(b).h12, h21 := Finished(b).h21);
    if Preserves(Finished(b), d1, d2, x1, y1) {
      DeterminedByCoordinate(Correct(b), Finished(b).h12, Finished(b).h21, d1, d2, x1, y1);
    }
  }

  /** For the branch that keeps the second coordinate. */
  lemma {:induction false} LargerSurvives(b: Rotation, d1: real, d2: real, x1: real, y1: real)
    requires Preserves(b, d1, d2, x1, y1) && b.h12 == 1.0 && b.h21 == -1.0 && b.d1 > 0.0
    ensures Preserves(Finished(b), d1, d2, x1, y1) <==> EntriesSurvive(b)
    ensures PreservesNorm(Finished(b), d1, d2) <==> EntriesSurvive(b)
  {
    hide PreservesNorm, ScaleRows;
    CorrectPreserves(b, d1, d2, x1, y1);
    CorrectEntries(b);
    FactorIs(b.d1);
    FactorIs(b.d2);
    assert Finished(b) == Correct(b).(h12 := Finished(b).h12, h21 := Finished(b).h21);
    if PreservesNorm(Finished(b), d1, d2) {
      DeterminedBySign(Correct(b), Finished(b).h12, Finished(b).h21, d1, d2);
    }
  }

  lemma UnscaledWeight(d: real, s: real)
    requires s > 0.0
    ensures s * s != 0.0
    ensures d != 0.0 ==> d / (s * s) != 0.0
  {
    ProductSign(s, s);
    PositiveQuotient(d, s * s);
  }

  lemma CorrectEntries(b: Rotation)
    ensures Total(b.d1) > 0.0 && Total(b.d2) > 0.0
    ensures Correct(b).h11 == b.h11 * Total(b.d1) && Correct(b).h12 == b.h12 * Total(b.d1)
    ensures Correct(b).h21 == b.h21 * Total(b.d2) && Correct(b).h22 == b.h22 * Total(b.d2)
    ensures b.d1 != 0.0 ==> Correct(b).d1 != 0.0
    ensures b.d2 != 0.0 ==> Correct(b).d2 != 0.0
    ensures Iterations(b.d2) == 0 ==> Total(b.d2) == 1.0
    ensures Iterations(b.d1) == 0 ==> Total(b.d1) == 1.0
  {
    hide Iterations;
    TotalPositive(b.d1);
    TotalPositive(b.d2);
    UnscaledWeight(b.d1, Total(b.d1));
    UnscaledWeight(b.d2, Total(b.d2));
  }

  // ----- When the entries survive -------------------------------------------

  /** A power of the factor is one only for the zeroth. */
  lemma PowerIsOne(s: real, n: nat)
    requires s == GAMMA || s == 1.0 / GAMMA
    ensures Power(s, n) == 1.0 <==> n == 0
    ensures n > 0 ==> (Power(s, n) == s <==> n == 1)
  {
    PowerPositive(s, n);
    if n > 0 {
      PowerPositive(s, n - 1);
    }
  }

  /** With fixed unit off-diagonal entries, two iterations always spoil one of them. */
  lemma {:induction false} LargerSurvivesIff(b: Rotation)
    requires b.h12 == 1.0 && b.h21 == -1.0
    ensures EntriesSurvive(b) <==> Iterations(b.d1) + Iterations(b.d2) <= 1
  {
    hide ScaleRows, Power, Iterations;
    CorrectEntries(b);
    FactorIs(b.d1);
    FactorIs(b.d2);
    PowerIsOne(Factor(b.d1), Iterations(b.d1));
    PowerIsOne(Factor(b.d2), Iterations(b.d2));
  }

  /** A weight that takes `n` downward iterations is at least gamma to the 2n. */
  lemma {:induction false} LargeWeight(d: real, n: nat)
    requires d > 0.0 && Factor(d) == GAMMA && n == Iterations(d) && n >= 1
    ensures d >= Power(GAMMA, n) * Power(GAMMA, n)
  {
    DistanceDecreases(d);
    var e, p := Rescaled(d), Power(GAMMA, n - 1);
    if n >= 2 {
      LargeWeight(e, n - 1);
    } else {
      assert p == 1.0;
      assert d >= GAMMA_SQUARED;
    }
    assert Power(GAMMA, n) == p * GAMMA;
    assert (p * GAMMA) * (p * GAMMA) == (p * p) * GAMMA_SQUARED;
    assert d == e * GAMMA_SQUARED;
  }

  lemma DominanceOrdersWeights(d1: real, d2: real, x: real)
    requires d1 >= 0.0 && FirstDominates(d1, d2, x, x)
    ensures d1 > Abs(d2)
  {
    DominatingIsNonzero(d1, d2, x, x);
    ProductSign(x, x);
    var w := x * x;
    assert w > 0.0 by {
      ProductSign(-x, -x);
      assert (-x) * (-x) == w;
    }
    Reassociate(d1, x, x);
    Reassociate(d2, x, x);
    ProductSign(d2, w);
    ProductSign(-d2, w);
    ProductSign(w, d1 - Abs(d2));
    if d1 <= Abs(d2) {
      ProductSign(w, Abs(d2) - d1);
    }
  }

  /** If the first loop alone iterates twice or more, the entries never survive. */
  lemma {:induction false} FirstLoopSpoils(b: Rotation, d1: real, d2: real, x: real, y: real, u: real)
    requires d1 >= 0.0 && FirstDominates(d1, d2, x, y) && u > 0.0
    requires b.h21 * x == -y && b.h12 * (d1 * x) == d2 * y && b.d1 * u == d1 && b.d2 * u == d2
    requires Iterations(b.d2) == 0 && Iterations(b.d1) >= 2
    ensures !EntriesSurvive(b)
  {
    hide *;
    if EntriesSurvive(b) {
      FirstLoopSurvival(b);
      ImpossibleSurvival(b.h12, b.h21, b.d1, b.d2, Factor(b.d1), Total(b.d1), Iterations(b.d1), d1, d2, x, y, u);
    }
  }

  lemma ImpossibleSurvival(
      h12: real, h21: real, w1: real, w2: real, s: real, total: real, n: nat, d1: real, d2: real, x: real, y: real,
      u: real)
    requires d1 >= 0.0 && FirstDominates(d1, d2, x, y) && u > 0.0
    requires h21 * x == -y && h12 * (d1 * x) == d2 * y && w1 * u == d1 && w2 * u == d2
    requires s == Factor(w1) && n == Iterations(w1) && n >= 2 && Iterations(w2) == 0 && total == Power(s, n - 1) * s
    ensures !(h21 == -1.0 && s == h12 * total)
  {
    hide Iterations, Factor, Power, FirstDominates;
    if h21 == -1.0 && s == h12 * total {
      FactorIs(w1);
      PowerPositive(s, n - 1);
      AnnihilateUnit(h21, x, y);
      var p := Power(s, n - 1);
      EqualCoordinates(h12, p, s, total, d1, d2, x, y);
      LargeFirstWeight(w1, u, d1, n);
      SecondIsLarge(w1, w2, d1, d2, u, p);
      InRangeWeight(w2);
    }
  }

  lemma AnnihilateUnit(h: real, x: real, y: real)
    requires h == -1.0 && h * x == -y
    ensures x == y
  {
  }

  lemma LargeFirstWeight(w: real, u: real, d: real, n: nat)
    requires u > 0.0 && w * u == d && d > 0.0 && Factor(w) == GAMMA && n == Iterations(w) && n >= 2
    ensures w >= (Power(GAMMA, n - 1) * GAMMA) * (Power(GAMMA, n - 1) * GAMMA)
  {
    PositiveWeight(w, u, d);
    LargeWeight(w, n);
  }

  /** Survival would make the weights differ by a power above one. */
  lemma EqualCoordinates(h12: real, p: real, s: real, total: real, d1: real, d2: real, x: real, y: real)
    requires d1 >= 0.0 && FirstDominates(d1, d2, x, y) && x == y
    requires s > 0.0 && p > 0.0 && s == h12 * total && total == p * s && h12 * (d1 * x) == d2 * y
    ensures d1 > 0.0 && d1 == d2 * p && p > 1.0
  {
    DominanceOrdersWeights(d1, d2, x);
    DominatingIsNonzero(d1, d2, x, x);
    hide FirstDominates;
    WeightsDifferByPower(h12, p, s, total, d1, d2, x);
    ExcessivePower(d1, d2, p);
  }

  lemma FirstLoopSurvival(b: Rotation)
    requires EntriesSurvive(b) && Iterations(b.d2) == 0 && Iterations(b.d1) >= 2
    ensures b.h21 == -1.0
    ensures Factor(b.d1) == GAMMA || Factor(b.d1) == 1.0 / GAMMA
    ensures Factor(b.d1) == b.h12 * Total(b.d1)
    ensures Total(b.d1) == Power(Factor(b.d1), Iterations(b.d1) - 1) * Factor(b.d1)
  {
    hide ScaleRows, Iterations;
    CorrectEntries(b);
    FactorIs(b.d1);
    assert Finished(b).h12 == Factor(b.d1) && Finished(b).h21 == -1.0;
    TimesOne(b.h21, Total(b.d2));
  }

  lemma TimesOne(h: real, t: real)
    requires t == 1.0
    ensures h * t == h
  {
  }

  lemma UnitQuotient(h12: real, p: real, s: real, total: real, a: real)
    requires s != 0.0 && s == h12 * total && total == p * s && a == h12 * p
    ensures a == 1.0
  {
    assert h12 * (total - p * s) == 0.0;
    assert a * s - s == 0.0;
    CancelProduct(s, a, 1.0);
  }

  lemma WeightsDifferByPower(h12: real, p: real, s: real, total: real, d1: real, d2: real, x: real)
    requires s != 0.0 && x != 0.0 && s == h12 * total && total == p * s && h12 * (d1 * x) == d2 * x
    ensures d1 == d2 * p
  {
    UnitQuotient(h12, p, s, total, h12 * p);
    assert (h12 * d1) * x == d2 * x;
    CancelProduct(x, h12 * d1, d2);
    assert d2 * p == (h12 * p) * d1;
  }

  lemma ExcessivePower(d1: real, d2: real, p: real)
    requires d1 > Abs(d2) && d1 == d2 * p && p > 0.0
    ensures d2 > 0.0 && p > 1.0
  {
    ProductSign(p, d2);
    ProductSign(d2, 1.0 - p);
    assert d2 * (1.0 - p) == d2 - d2 * p;
  }

  lemma PositiveWeight(w: real, u: real, d: real)
    requires u > 0.0 && w * u == d && d > 0.0
    ensures w > 0.0
  {
    ProductSign(u, w);
  }

  lemma SecondIsLarge(w1: real, w2: real, d1: real, d2: real, u: real, p: real)
    requires u > 0.0 && w1 * u == d1 && w2 * u == d2 && d1 == d2 * p && p >= 1.0
    requires w1 >= (p * GAMMA) * (p * GAMMA)
    ensures w2 >= GAMMA_SQUARED
  {
    assert w1 * u == (w2 * p) * u;
    CancelProduct(u, w1, w2 * p);
    assert (p * GAMMA) * (p * GAMMA) == p * (p * GAMMA_SQUARED);
    assert p * (w2 - p * GAMMA_SQUARED) >= 0.0;
    ProductSign(p, -(w2 - p * GAMMA_SQUARED));
    assert w2 >= p * GAMMA_SQUARED;
  }

  lemma InRangeWeight(w: real)
    requires Iterations(w) == 0
    ensures w < GAMMA_SQUARED
  {
  }

  /** An equation between products, multiplied through by a non-zero factor. */
  lemma {:induction false} UnitEntry(h: real, total: real, c: real, e: real)
    requires c != 0.0 && h * c == e
    ensures h * total == 1.0 <==> e * total == c
  {
    assert (h * c) * total == c * (h * total);
    if e * total == c {
      CancelProduct(c, h * total, 1.0);
    }
  }

  lemma {:induction false} ScaledEntry(h: real, p: real, t: real, total: real, x: real, y: real)
    requires t != 0.0 && x != 0.0 && total == p * t && h * x == -y
    ensures -t == h * total <==> x == y * p
  {
    assert h * (total - p * t) == 0.0;
    assert (h * x) * p == x * (h * p);
    if -t == h * total {
      assert t * (h * p) - t * -1.0 == 0.0;
      CancelProduct(t, h * p, -1.0);
    }
    if x == y * p {
      assert x * (h * p) == x * -1.0;
      CancelProduct(x, h * p, -1.0);
      assert h * total - t * (h * p) == 0.0;
    }
  }

  /** When the second loop runs last, the entries survive exactly on a thin set of inputs. */
  lemma {:induction false} SecondLoopSurvives(b: Rotation, d1: real, d2: real, x: real, y: real)
    requires x != 0.0 && d1 * x != 0.0
    requires b.h21 * x == -y && b.h12 * (d1 * x) == d2 * y
    requires Iterations(b.d2) >= 1 && Iterations(b.d1) + Iterations(b.d2) >= 2
    ensures EntriesSurvive(b) <==>
            x == y * Power(Factor(b.d2), Iterations(b.d2) - 1) && (d2 * y) * Total(b.d1) == d1 * x
  {
    hide Iterations, ScaleRows, Power, Factor;
    CorrectEntries(b);
    FactorIs(b.d2);
    TotalSteps(b.d2);
    hide Total;
    UnitEntry(b.h12, Total(b.d1), d1 * x, d2 * y);
    ScaledEntry(b.h21, Power(Factor(b.d2), Iterations(b.d2) - 1), Factor(b.d2), Total(b.d2), x, y);
  }

  lemma TotalSteps(d: real)
    requires Iterations(d) >= 1
    ensures Total(d) == Power(Factor(d), Iterations(d) - 1) * Factor(d)
  {
  }

  // ----- The main result ----------------------------------------------------

  /** Inputs on which overwriting the off-diagonal entries changes nothing
      although the loops iterate more than once in total. */
  predicate Coincidence(b: Rotation, d1: real, d2: real, x1: real, y1: real) {
    && FirstDominates(d1, d2, x1, y1)
    && Iterations(b.d2) >= 1
    && x1 == y1 * Power(Factor(b.d2), Iterations(b.d2) - 1)
    && (d2 * y1) * Total(b.d1) == d1 * x1
  }

  lemma {:induction false} SmallerExactly(d1: real, d2: real, x1: real, y1: real)
    requires d1 >= 0.0 && d2 * y1 != 0.0 && FirstDominates(d1, d2, x1, y1)
    ensures BaseStage(d1, d2, x1, y1).Rotated?
    ensures var b := BaseStage(d1, d2, x1, y1).rotation;
      Preserves(Finished(b), d1, d2, x1, y1) <==>
      Iterations(b.d1) + Iterations(b.d2) <= 1 || Coincidence(b, d1, d2, x1, y1)
  {
    hide BaseStage, Preserves, ScaleRows, Iterations, Power, Factor, FirstDominates, Finished, Total, Correct;
    hide EntriesSurvive, Coincidence;
    BasePreserves(d1, d2, x1, y1);
    var b, u := SmallerShape(d1, d2, x1, y1);
    ShapedExactly(b, u, d1, d2, x1, y1);
  }

  lemma {:induction false} ShapedExactly(b: Rotation, u: real, d1: real, d2: real, x1: real, y1: real)
    requires d1 >= 0.0 && FirstDominates(d1, d2, x1, y1) && Preserves(b, d1, d2, x1, y1)
    requires u > 0.0 && b.h11 == 1.0 && b.h21 * x1 == -y1 && b.h12 * (d1 * x1) == d2 * y1
    requires b.d1 * u == d1 && b.d2 * u == d2 && b.d1 > 0.0
    ensures Preserves(Finished(b), d1, d2, x1, y1) <==>
            Iterations(b.d1) + Iterations(b.d2) <= 1 || Coincidence(b, d1, d2, x1, y1)
  {
    hide Preserves, ScaleRows, Iterations, Power, Factor, FirstDominates, Finished, Total, Correct, EntriesSurvive;
    DominatingIsNonzero(d1, d2, x1, y1);
    SmallerSurvives(b, d1, d2, x1, y1);
    if Iterations(b.d1) + Iterations(b.d2) <= 1 {
      FewIterationsSurvive(b);
    } else if Iterations(b.d2) >= 1 {
      SecondLoopSurvives(b, d1, d2, x1, y1);
    } else {
      FirstLoopSpoils(b, d1, d2, x1, y1, u);
    }
  }

  lemma FewIterationsSurvive(b: Rotation)
    requires Iterations(b.d1) + Iterations(b.d2) <= 1
    ensures EntriesSurvive(b)
  {
  }

  lemma SmallerShape(d1: real, d2: real, x1: real, y1: real) returns (b: Rotation, u: real)
    requires d1 >= 0.0 && d2 * y1 != 0.0 && FirstDominates(d1, d2, x1, y1)
    ensures BaseStage(d1, d2, x1, y1).Rotated? && b == BaseStage(d1, d2, x1, y1).rotation
    ensures u > 0.0 && b.h11 == 1.0 && b.h22 == 1.0 && b.h21 * x1 == -y1 && b.h12 * (d1 * x1) == d2 * y1
    ensures b.d1 * u == d1 && b.d2 * u == d2
  {
    BasePreserves(d1, d2, x1, y1);
    DominatingIsNonzero(d1, d2, x1, y1);
    b := BaseStage(d1, d2, x1, y1).rotation;
    hide FirstDominates, Preserves;
    u := 1.0 - ((d2 * y1) / (d1 * x1)) * (-y1 / x1);
  }

  /** Exactly when the rotation Rotmg returns has all three properties - it keeps
      the weighted norm of every pair, annihilates the second coordinate and
      reports the first: at most one rescaling iteration over both loops, or a
      coincidence. */
  lemma {:induction false} RotmgPreservesExactly(d1: real, d2: real, x1: real, y1: real)
    requires d1 >= 0.0 && d2 * y1 != 0.0
    requires FirstDominates(d1, d2, x1, y1) || d2 > 0.0
    ensures BaseStage(d1, d2, x1, y1).Rotated?
    ensures var b := BaseStage(d1, d2, x1, y1).rotation;
      Preserves(Finished(b), d1, d2, x1, y1) <==>
      Iterations(b.d1) + Iterations(b.d2) <= 1 || Coincidence(b, d1, d2, x1, y1)
  {
    if FirstDominates(d1, d2, x1, y1) {
      SmallerExactly(d1, d2, x1, y1);
    } else {
      BasePreserves(d1, d2, x1, y1);
      var b := BaseStage(d1, d2, x1, y1).rotation;
      hide Preserves, ScaleRows, Iterations, Power, Factor, FirstDominates, Finished, Total, Correct;
      LargerSurvives(b, d1, d2, x1, y1);
      LargerSurvivesIff(b);
    }
  }
}
