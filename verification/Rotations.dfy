/** The Rotmg and Rotm kernels over their parameter vector. */
module Rotations {
  import opened Reals
  import opened Givens
  import opened Rescaling
  import opened WeightedNorms

  // ----- The parameter vector -----------------------------------------------

  /** What the parameter vector encodes: the flag says which entries are implicit. */
  datatype Matrix = Matrix(h11: real, h12: real, h21: real, h22: real)

  function Decoded(parameters: seq<real>): Matrix
    requires |parameters| == 5
  {
    if parameters[0] == -2.0 then Matrix(1.0, 0.0, 0.0, 1.0)
    else if parameters[0] < 0.0 then Matrix(parameters[1], parameters[3], parameters[2], parameters[4])
    else if parameters[0] == 0.0 then Matrix(1.0, parameters[3], parameters[2], 1.0)
    else Matrix(parameters[1], 1.0, -1.0, parameters[4])
  }

  function MatrixOf(r: Rotation): Matrix {
    Matrix(r.h11, r.h12, r.h21, r.h22)
  }

  datatype Pair = Pair(first: real, second: real)

  function Apply(m: Matrix, x: real, y: real): Pair {
    Pair(x * m.h11 + y * m.h12, x * m.h21 + y * m.h22)
  }

  function WeightedNorm(d1: real, d2: real, p: Pair): real {
    d1 * (p.first * p.first) + d2 * (p.second * p.second)
  }

  /** Every pair, not just the defining one, keeps its weighted norm. */
  lemma {:induction false} NormOfEveryPair(r: Rotation, d1: real, d2: real, x: real, y: real)
    requires PreservesNorm(r, d1, d2)
    ensures WeightedNorm(r.d1, r.d2, Apply(MatrixOf(r), x, y)) == WeightedNorm(d1, d2, Pair(x, y))
  {
    QuadraticForm(r.d1, r.h11, r.h12, x, y);
    QuadraticForm(r.d2, r.h21, r.h22, x, y);
    var a, b, c := r.d1 * (r.h11 * r.h11), r.d1 * (r.h11 * r.h12), r.d1 * (r.h12 * r.h12);
    var e, f, g := r.d2 * (r.h21 * r.h21), r.d2 * (r.h21 * r.h22), r.d2 * (r.h22 * r.h22);
    CollectForms(a, b, c, e, f, g, x * x, x * y, y * y);
  }

  /** Every pair has the same weighted norm before and after. */
  ghost predicate KeepsEveryNorm(h: Matrix, w1: real, w2: real, d1: real, d2: real) {
    forall x, y :: WeightedNorm(w1, w2, Apply(h, x, y)) == WeightedNorm(d1, d2, Pair(x, y))
  }

  /** The matrix keeps the weighted norm of every pair exactly when its columns satisfy the norm equations. */
  lemma {:induction false} NormsAreEquations(r: Rotation, d1: real, d2: real)
    ensures PreservesNorm(r, d1, d2) <==> KeepsEveryNorm(MatrixOf(r), r.d1, r.d2, d1, d2)
  {
    hide PreservesNorm, WeightedNorm, Apply;
    if PreservesNorm(r, d1, d2) {
      forall x, y
        ensures WeightedNorm(r.d1, r.d2, Apply(MatrixOf(r), x, y)) == WeightedNorm(d1, d2, Pair(x, y))
      {
        NormOfEveryPair(r, d1, d2, x, y);
      }
    }
    if KeepsEveryNorm(MatrixOf(r), r.d1, r.d2, d1, d2) {
      NormOfUnits(r, d1, d2);
    }
  }

  lemma NormOfUnits(r: Rotation, d1: real, d2: real)
    requires WeightedNorm(r.d1, r.d2, Apply(MatrixOf(r), 1.0, 0.0)) == WeightedNorm(d1, d2, Pair(1.0, 0.0))
    requires WeightedNorm(r.d1, r.d2, Apply(MatrixOf(r), 0.0, 1.0)) == WeightedNorm(d1, d2, Pair(0.0, 1.0))
    requires WeightedNorm(r.d1, r.d2, Apply(MatrixOf(r), 1.0, 1.0)) == WeightedNorm(d1, d2, Pair(1.0, 1.0))
    ensures PreservesNorm(r, d1, d2)
  {
    QuadraticForm(r.d1, r.h11, r.h12, 1.0, 1.0);
    QuadraticForm(r.d2, r.h21, r.h22, 1.0, 1.0);
  }

  lemma SecondCoordinateVanishes(r: Rotation, d1: real, d2: real, x1: real, y1: real)
    requires Preserves(r, d1, d2, x1, y1)
    ensures Apply(MatrixOf(r), x1, y1) == Pair(r.x1, 0.0)
  {
    var Pair(u, v) := Apply(MatrixOf(r), x1, y1);
    assert u == r.h11 * x1 + r.h12 * y1 && v == r.h21 * x1 + r.h22 * y1;
  }

  lemma QuadraticForm(d: real, g: real, h: real, x: real, y: real)
    ensures d * ((g * x + h * y) * (g * x + h * y))
            == (d * (g * g)) * (x * x) + 2.0 * ((d * (g * h)) * (x * y)) + (d * (h * h)) * (y * y)
  {
  }

  lemma CollectForms(a: real, b: real, c: real, e: real, f: real, g: real, p: real, q: real, r: real)
    ensures (a * p + 2.0 * (b * q) + c * r) + (e * p + 2.0 * (f * q) + g * r)
            == (a + e) * p + 2.0 * ((b + f) * q) + (c + g) * r
  {
  }

  /** With two rescaling iterations the returned matrix can fail to keep the norm. */
  lemma TwoIterationsCanFail()
    ensures BaseStage(16777216.0, 16777216.0, 0.0, 1.0).Rotated?
    ensures !PreservesNorm(Finished(BaseStage(16777216.0, 16777216.0, 0.0, 1.0).rotation), 16777216.0, 16777216.0)
  {
    var d := 16777216.0;
    assert !FirstDominates(d, d, 0.0, 1.0);
    RotmgPreservesNormExactly(d, d, 0.0, 1.0);
    var b := BaseStage(d, d, 0.0, 1.0).rotation;
    assert b.d1 == d && b.d2 == d;
    NoCoincidence(b, d, d, 0.0, 1.0);
    hide PreservesNorm, Finished, BaseStage, Coincidence;
    OneIteration(d);
  }

  // ----- Rotmg --------------------------------------------------------------

  /** What Rotmg leaves in the parameter vector; entries implied by the flag keep their old value. */
  function Encoded(before: seq<real>, stage: Stage): seq<real>
    requires |before| == 5
  {
    match stage
    case Identity => before[0 := -2.0]
    case Zeroed => [-1.0, 0.0, 0.0, 0.0, 0.0]
    case Rotated(flag, b) =>
      var f := Finished(b);
      if Iterations(b.d1) + Iterations(b.d2) > 0 then [-1.0, f.h11, f.h21, f.h12, f.h22]
      else if flag == 0.0 then before[0 := 0.0][2 := f.h21][3 := f.h12]
      else before[0 := flag][1 := f.h11][4 := f.h22]
  }

  /** The loop variables of Rotmg. */
  datatype Variables = Variables(flag: real, h11: real, h12: real, h21: real, h22: real, d1: real, d2: real, x1: real)

  /** One iteration of the first loop. */
  function FirstIteration(v: Variables): Variables {
    var w := (if v.flag == 0.0 then v.(h11 := 1.0, h22 := 1.0) else v.(h21 := -1.0, h12 := 1.0)).(flag := -1.0);
    if w.d1 <= INVERSE_GAMMA_SQUARED then
      w.(d1 := w.d1 * GAMMA_SQUARED, x1 := w.x1 / GAMMA, h11 := w.h11 / GAMMA, h12 := w.h12 / GAMMA)
    else
      w.(d1 := w.d1 / GAMMA_SQUARED, x1 := w.x1 * GAMMA, h11 := w.h11 * GAMMA, h12 := w.h12 * GAMMA)
  }

  /** One iteration of the second loop. */
  function SecondIteration(v: Variables): Variables {
    var w := (if v.flag == 0.0 then v.(h11 := 1.0, h22 := 1.0) else v.(h21 := -1.0, h12 := 1.0)).(flag := -1.0);
    if Abs(w.d2) <= INVERSE_GAMMA_SQUARED then
      w.(d2 := w.d2 * GAMMA_SQUARED, h21 := w.h21 / GAMMA, h22 := w.h22 / GAMMA)
    else
      w.(d2 := w.d2 / GAMMA_SQUARED, h21 := w.h21 * GAMMA, h22 := w.h22 * GAMMA)
  }

  /** Before any iteration: the entries implied by the flag are not stored. */
  ghost predicate Unscaled(b: Rotation, flag0: real, v: Variables) {
    && v.flag == flag0
    && (|| (flag0 == 0.0 && v.h12 == b.h12 && v.h21 == b.h21 && b.h11 == 1.0 && b.h22 == 1.0)
        || (flag0 == 1.0 && v.h11 == b.h11 && v.h22 == b.h22 && b.h12 == 1.0 && b.h21 == -1.0))
  }

  /** The weight before scaling its row by `p`. */
  function Restored(d: real, p: real): real {
    d * (p * p)
  }

  /** The state of a weight after `k` iterations of its loop. */
  ghost predicate WeightScaled(start: real, k: nat, d: real) {
    var p := Power(Factor(start), k);
    && Iterations(start) == k + Iterations(d)
    && (OutOfRange(d) ==> Factor(d) == Factor(start))
    && p > 0.0 && Restored(d, p) == start
  }

  function Times(h: real, s: real): real {
    h * s
  }

  /** An entry after `k` scalings. */
  function Grown(h: real, s: real, k: nat): real {
    h * Power(s, k)
  }

  /** The loop variables after `k` iterations of the first loop. */
  ghost predicate FirstLoop(b: Rotation, flag0: real, k: nat, v: Variables) {
    var s := Factor(b.d1);
    && WeightScaled(b.d1, k, v.d1) && v.d1 > 0.0 && v.d2 == b.d2 && v.x1 == Grown(b.x1, s, k)
    && (if k == 0 then Unscaled(b, flag0, v)
        else
          && v.flag == -1.0 && v.h11 == Grown(b.h11, s, k) && v.h22 == b.h22
          && (if k == 1 then v.h12 == Times(b.h12, s) && v.h21 == b.h21 else v.h12 == s && v.h21 == -1.0))
  }

  /** The loop variables after the first loop, which scaled its row by `s` in `n` iterations,
      and `k` iterations of the second. */
  ghost predicate SecondLoop(b: Rotation, flag0: real, n: nat, s: real, k: nat, v: Variables) {
    var t := Factor(b.d2);
    && WeightScaled(b.d2, k, v.d2) && Restored(v.d1, s) == b.d1 && v.x1 == Times(b.x1, s)
    && (if n + k == 0 then Unscaled(b, flag0, v) && s == 1.0
        else
          && v.flag == -1.0 && v.h11 == Times(b.h11, s) && v.h22 == Grown(b.h22, t, k)
          && (if n + k == 1 then v.h12 == Times(b.h12, s) && v.h21 == Grown(b.h21, t, k)
              else if k == 0 then v.h12 == Factor(b.d1) && v.h21 == -1.0
              else v.h12 == 1.0 && v.h21 == -t))
    && (n == 0 ==> s == 1.0)
  }

  lemma {:induction false} WeightStep(start: real, k: nat, d: real)
    requires WeightScaled(start, k, d) && OutOfRange(d)
    ensures WeightScaled(start, k + 1, Rescaled(d))
  {
    var s, p, e := Factor(start), Power(Factor(start), k), Rescaled(d);
    FactorBranch(d);
    RescaledFactor(d);
    CountedStep(d);
    hide Iterations, Factor, Rescaled, OutOfRange;
    var q := Power(s, k + 1);
    NextPower(s, k);
    hide Power, Restored;
    ScaledSquare(d, p, s, e);
  }

  lemma CountedStep(d: real)
    requires OutOfRange(d)
    ensures Iterations(d) == 1 + Iterations(Rescaled(d))
  {
  }

  lemma RescaledFactor(d: real)
    requires OutOfRange(d)
    ensures OutOfRange(Rescaled(d)) ==> Factor(Rescaled(d)) == Factor(d)
  {
    DistanceDecreases(d);
  }

  lemma NextPower(s: real, k: nat)
    requires s == GAMMA || s == 1.0 / GAMMA
    ensures Power(s, k + 1) == Power(s, k) * s && Power(s, k + 1) > 0.0
  {
    PowerPositive(s, k + 1);
  }

  lemma FactorBranch(d: real)
    requires OutOfRange(d)
    ensures Abs(d) <= INVERSE_GAMMA_SQUARED ==> Factor(d) == 1.0 / GAMMA && Rescaled(d) == d * GAMMA_SQUARED
    ensures Abs(d) > INVERSE_GAMMA_SQUARED ==> Factor(d) == GAMMA && Rescaled(d) == d / GAMMA_SQUARED
    ensures Factor(d) == GAMMA || Factor(d) == 1.0 / GAMMA
  {
  }

  lemma ScaledSquare(d: real, p: real, s: real, e: real)
    requires (s == GAMMA && e == d / GAMMA_SQUARED) || (s == 1.0 / GAMMA && e == d * GAMMA_SQUARED)
    ensures Restored(e, p * s) == Restored(d, p)
  {
    if s == GAMMA {
      assert (p * s) * (p * s) == (p * p) * GAMMA_SQUARED;
      assert e * ((p * p) * GAMMA_SQUARED) == d * (p * p);
    } else {
      assert (p * s) * (p * s) == (p * p) * (1.0 / GAMMA_SQUARED);
      assert e * ((p * p) * (1.0 / GAMMA_SQUARED)) == d * (p * p);
    }
  }

  lemma GrownSteps(h: real, s: real, k: nat)
    ensures Grown(h, s, 0) == h && Grown(h, s, 1) == Times(h, s)
    ensures Grown(h, s, k + 1) == Times(Grown(h, s, k), s)
  {
    assert Power(s, 1) == Power(s, 0) * s;
    var p := Power(s, k);
    assert Power(s, k + 1) == p * s;
    assert h * (p * s) == (h * p) * s;
  }

  lemma UnitTimes(s: real)
    ensures forall h :: Times(h, 1.0) == h
    ensures Times(1.0, s) == s && Times(-1.0, s) == -s
  {
  }

  lemma FactorTimes(s: real, h: real)
    ensures s == GAMMA ==> Times(h, s) == h * GAMMA
    ensures s == 1.0 / GAMMA ==> Times(h, s) == h / GAMMA
  {
  }

  /** One iteration of the first loop multiplies the first row by the factor. */
  lemma FirstIterationIs(v: Variables)
    requires OutOfRange(v.d1) && v.d1 > 0.0
    ensures var s, w := Factor(v.d1), FirstIteration(v);
      && w.flag == -1.0 && w.d1 == Rescaled(v.d1) && w.d2 == v.d2 && w.x1 == Times(v.x1, s)
      && w.h11 == Times(if v.flag == 0.0 then 1.0 else v.h11, s) && w.h22 == (if v.flag == 0.0 then 1.0 else v.h22)
      && w.h12 == Times(if v.flag == 0.0 then v.h12 else 1.0, s) && w.h21 == (if v.flag == 0.0 then v.h21 else -1.0)
  {
    FactorBranch(v.d1);
    hide Factor, Times;
    var s := Factor(v.d1);
    FactorTimes(s, v.x1);
    FactorTimes(s, if v.flag == 0.0 then 1.0 else v.h11);
    FactorTimes(s, if v.flag == 0.0 then v.h12 else 1.0);
  }

  lemma SecondIterationIs(v: Variables)
    requires OutOfRange(v.d2)
    ensures var t, w := Factor(v.d2), SecondIteration(v);
      && w.flag == -1.0 && w.d2 == Rescaled(v.d2) && w.d1 == v.d1 && w.x1 == v.x1
      && w.h11 == (if v.flag == 0.0 then 1.0 else v.h11) && w.h22 == Times(if v.flag == 0.0 then 1.0 else v.h22, t)
      && w.h12 == (if v.flag == 0.0 then v.h12 else 1.0) && w.h21 == Times(if v.flag == 0.0 then v.h21 else -1.0, t)
  {
    FactorBranch(v.d2);
    hide Factor, Times;
    var t := Factor(v.d2);
    FactorTimes(t, if v.flag == 0.0 then 1.0 else v.h22);
    FactorTimes(t, if v.flag == 0.0 then v.h21 else -1.0);
  }

  lemma {:induction false} FirstStep(b: Rotation, flag0: real, k: nat, v: Variables)
    requires FirstLoop(b, flag0, k, v) && OutOfRange(v.d1)
    ensures FirstLoop(b, flag0, k + 1, FirstIteration(v))
    ensures 0 <= Distance(FirstIteration(v).d1) < Distance(v.d1)
  {
    FirstIterationIs(v);
    DistanceDecreases(v.d1);
    hide Power, Iterations, Factor, FirstIteration, Rescaled, Distance, OutOfRange, Times, Grown, Restored;
    WeightStep(b.d1, k, v.d1);
    hide WeightScaled;
    var s := Factor(b.d1);
    UnitTimes(s);
    GrownSteps(b.x1, s, k);
    GrownSteps(b.h11, s, k);
  }

  lemma {:induction false} SecondStep(b: Rotation, flag0: real, n: nat, s: real, k: nat, v: Variables)
    requires SecondLoop(b, flag0, n, s, k, v) && OutOfRange(v.d2)
    ensures SecondLoop(b, flag0, n, s, k + 1, SecondIteration(v))
    ensures 0 <= Distance(SecondIteration(v).d2) < Distance(v.d2)
  {
    SecondIterationIs(v);
    DistanceDecreases(v.d2);
    hide Power, Iterations, Factor, SecondIteration, Rescaled, Distance, OutOfRange, Times, Grown, Restored;
    WeightStep(b.d2, k, v.d2);
    hide WeightScaled;
    var t := Factor(b.d2);
    UnitTimes(t);
    UnitTimes(s);
    GrownSteps(b.h22, t, k);
    GrownSteps(b.h21, t, k);
  }

  // ----- Entering and leaving the loops -------------------------------------

  /** What the branches of the kernel leave before the loops. */
  ghost predicate Entered(stage: Stage, v: Variables) {
    stage.Rotated? && (stage.flag == 0.0 || stage.flag == 1.0) && Unscaled(stage.rotation, stage.flag, v)
    && v.d1 == stage.rotation.d1 && v.d2 == stage.rotation.d2 && v.x1 == stage.rotation.x1 && v.d1 > 0.0
  }

  lemma {:induction false} FirstLoopStarts(stage: Stage, v: Variables)
    requires Entered(stage, v)
    ensures FirstLoop(stage.rotation, stage.flag, 0, v)
  {
    WeightStarts(v.d1);
    hide Iterations, Factor, WeightScaled, Unscaled;
  }

  lemma WeightStarts(d: real)
    ensures WeightScaled(d, 0, d)
  {
  }

  lemma {:induction false} SecondLoopStarts(b: Rotation, flag0: real, k: nat, v: Variables)
    requires FirstLoop(b, flag0, k, v) && !OutOfRange(v.d1)
    ensures k == Iterations(b.d1)
    ensures SecondLoop(b, flag0, k, Total(b.d1), 0, v)
  {
    WeightStarts(b.d2);
    var t := Factor(b.d2);
    assert Power(t, 0) == 1.0;
    assert WeightScaled(b.d2, 0, v.d2);
    WeightEnds(b.d1, k, v.d1);
    GrownSteps(b.h22, t, 0);
    GrownSteps(b.h21, t, 0);
    GrownTotal(b.x1, b.d1);
    GrownTotal(b.h11, b.d1);
    assert k == 1 ==> Total(b.d1) == Factor(b.d1) by {
      GrownSteps(1.0, Factor(b.d1), 0);
    }
    hide *;
  }

  lemma WeightEnds(start: real, k: nat, d: real)
    requires WeightScaled(start, k, d) && !OutOfRange(d)
    ensures k == Iterations(start) && Restored(d, Total(start)) == start
    ensures k == 0 ==> Total(start) == 1.0
  {
  }

  lemma GrownTotal(h: real, d: real)
    ensures Grown(h, Factor(d), Iterations(d)) == Times(h, Total(d))
  {
  }

  /** The final writes to the parameter vector. */
  function Stored(before: seq<real>, v: Variables): seq<real>
    requires |before| == 5
  {
    if v.flag < 0.0 then [v.flag, v.h11, v.h21, v.h12, v.h22]
    else if v.flag == 0.0 then before[0 := v.flag][2 := v.h21][3 := v.h12]
    else before[0 := v.flag][1 := v.h11][4 := v.h22]
  }

  lemma {:induction false} SecondLoopEnds(b: Rotation, flag0: real, k: nat, v: Variables, before: seq<real>)
    requires |before| == 5 && (flag0 == 0.0 || flag0 == 1.0)
    requires SecondLoop(b, flag0, Iterations(b.d1), Total(b.d1), k, v) && !OutOfRange(v.d2)
    ensures v.d1 == Finished(b).d1 && v.d2 == Finished(b).d2 && v.x1 == Finished(b).x1
    ensures Stored(before, v) == Encoded(before, Rotated(flag0, b))
  {
    WeightEnds(b.d2, k, v.d2);
    GrownTotal(b.h22, b.d2);
    GrownTotal(b.h21, b.d2);
    hide WeightScaled, Iterations, OutOfRange, Factor, Power, Grown;
    CorrectIs(b);
    TotalPositive(b.d1);
    TotalPositive(b.d2);
    RestoredIs(v.d1, Total(b.d1), b.d1, Correct(b).d1);
    RestoredIs(v.d2, Total(b.d2), b.d2, Correct(b).d2);
    UnitTimes(1.0);
    hide Total, Restored, Times, Correct;
  }

  lemma RestoredIs(d: real, s: real, start: real, quotient: real)
    requires s > 0.0 && Restored(d, s) == start && Restored(quotient, s) == start
    ensures d == quotient
  {
    ProductSign(s, s);
    Cancels(s * s, d, quotient);
  }

  lemma CorrectIs(b: Rotation)
    ensures var c := Correct(b);
      && c.h11 == Times(b.h11, Total(b.d1)) && c.h12 == Times(b.h12, Total(b.d1))
      && c.h21 == Times(b.h21, Total(b.d2)) && c.h22 == Times(b.h22, Total(b.d2))
      && Restored(c.d1, Total(b.d1)) == b.d1 && Restored(c.d2, Total(b.d2)) == b.d2
      && c.x1 == Times(b.x1, Total(b.d1))
  {
    TotalPositive(b.d1);
    TotalPositive(b.d2);
    hide Total;
    ProductSign(Total(b.d1), Total(b.d1));
    ProductSign(Total(b.d2), Total(b.d2));
  }

  // ----- The encoded rotation -----------------------------------------------

  /** The parameters Rotmg leaves decode to the rotation it found. */
  lemma {:induction false} EncodedDecodes(before: seq<real>, d1: real, d2: real, x1: real, y1: real)
    requires |before| == 5 && BaseStage(d1, d2, x1, y1).Rotated?
    ensures var stage := BaseStage(d1, d2, x1, y1);
      Decoded(Encoded(before, stage)) == MatrixOf(Finished(stage.rotation))
  {
    var stage := BaseStage(d1, d2, x1, y1);
    var b := stage.rotation;
    StageShape(d1, d2, x1, y1);
    CorrectIs(b);
    NoIterations(b.d1);
    NoIterations(b.d2);
    UnitTimes(1.0);
    hide BaseStage, Iterations, Total, Correct, Times;
  }

  lemma StageShape(d1: real, d2: real, x1: real, y1: real)
    requires BaseStage(d1, d2, x1, y1).Rotated?
    ensures var Rotated(flag, b) := BaseStage(d1, d2, x1, y1);
      (flag == 0.0 && b.h11 == 1.0 && b.h22 == 1.0) || (flag == 1.0 && b.h12 == 1.0 && b.h21 == -1.0)
  {
  }

  lemma NoIterations(d: real)
    ensures Iterations(d) == 0 ==> Total(d) == 1.0
  {
  }

  lemma StageIsRotated(d1: real, d2: real, x1: real, y1: real)
    requires BaseStage(d1, d2, x1, y1).Rotated?
    ensures d1 >= 0.0 && d2 * y1 != 0.0 && (FirstDominates(d1, d2, x1, y1) || d2 > 0.0)
  {
    if d1 >= 0.0 && d2 * y1 != 0.0 {
      hide BaseStage;
      BasePreserves(d1, d2, x1, y1);
    }
  }

  /** Rotm with the parameters Rotmg leaves annihilates the defining pair and
      keeps the weighted norm of every pair, on exactly the inputs of
      `RotmgPreservesExactly`. */
  lemma {:induction false} RotatedPairs(before: seq<real>, d1: real, d2: real, x1: real, y1: real, x: real, y: real)
    requires |before| == 5 && BaseStage(d1, d2, x1, y1).Rotated?
    requires var b := BaseStage(d1, d2, x1, y1).rotation;
      Iterations(b.d1) + Iterations(b.d2) <= 1 || Coincidence(b, d1, d2, x1, y1)
    ensures var stage := BaseStage(d1, d2, x1, y1);
      var f, h := Finished(stage.rotation), Decoded(Encoded(before, stage));
      && Apply(h, x1, y1) == Pair(f.x1, 0.0)
      && WeightedNorm(f.d1, f.d2, Apply(h, x, y)) == WeightedNorm(d1, d2, Pair(x, y))
  {
    StageIsRotated(d1, d2, x1, y1);
    hide FirstDominates, BaseStage, Finished, Coincidence, Preserves, Iterations, Encoded, Decoded, Apply, MatrixOf;
    hide WeightedNorm;
    RotmgPreservesExactly(d1, d2, x1, y1);
    EncodedDecodes(before, d1, d2, x1, y1);
    var f := Finished(BaseStage(d1, d2, x1, y1).rotation);
    SecondCoordinateVanishes(f, d1, d2, x1, y1);
    NormOfEveryPair(f, d1, d2, x, y);
  }

  /** With the parameters Rotmg leaves, Rotm keeps the weighted norm of every
      pair on exactly the inputs of `RotmgPreservesNormExactly`. */
  lemma {:induction false} RotatedNorms(before: seq<real>, d1: real, d2: real, x1: real, y1: real)
    requires |before| == 5 && BaseStage(d1, d2, x1, y1).Rotated?
    ensures var stage := BaseStage(d1, d2, x1, y1);
      var b, f := stage.rotation, Finished(stage.rotation);
      KeepsEveryNorm(Decoded(Encoded(before, stage)), f.d1, f.d2, d1, d2) <==>
      || Iterations(b.d1) + Iterations(b.d2) <= 1
      || Coincidence(b, d1, d2, x1, y1) || Coincidence(b, d1, d2, -x1, y1)
  {
    StageIsRotated(d1, d2, x1, y1);
    hide FirstDominates, BaseStage, Finished, Coincidence, PreservesNorm, Iterations, Encoded, Decoded, KeepsEveryNorm;
    RotmgPreservesNormExactly(d1, d2, x1, y1);
    EncodedDecodes(before, d1, d2, x1, y1);
    NormsAreEquations(Finished(BaseStage(d1, d2, x1, y1).rotation), d1, d2);
  }
}
