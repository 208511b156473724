/** Exactly when the matrix of Rotmg keeps the weighted norm, whether or not it annihilates. */
module WeightedNorms {
  import opened Reals
  import opened Givens
  import opened Rescaling

  /** The rotation with its off-diagonal entries negated; it belongs to the mirrored first coordinate. */
  function Mirrored(b: Rotation): Rotation {
    b.(h12 := -b.h12, h21 := -b.h21)
  }

  /** The overwritten entries are the right ones with both signs flipped. */
  ghost predicate EntriesFlip(b: Rotation) {
    Finished(b).h12 == -Correct(b).h12 && Finished(b).h21 == -Correct(b).h21
  }

  lemma NegatedProducts(h: real, g: real, s: real)
    ensures (-h) * s == -(h * s) && (-h) * (-h) == h * h
    ensures g * (-h) == -(g * h) && (-h) * g == -(h * g)
  {
  }

  /** Flipping both signs keeps the norm equations. */
  lemma MirroredNorm(r: Rotation, d1: real, d2: real)
    requires PreservesNorm(r, d1, d2)
    ensures PreservesNorm(Mirrored(r), d1, d2)
  {
    NegatedProducts(r.h12, r.h11, r.h11);
    NegatedProducts(r.h21, r.h22, r.h22);
    NegatedProduct(r.d1, r.h11 * r.h12);
    NegatedProduct(r.d2, r.h21 * r.h22);
  }

  lemma NegatedProduct(d: real, p: real)
    ensures d * -p == -(d * p)
  {
  }

  /** Off-diagonal entries that satisfy the norm equations are fixed up to a common sign. */
  lemma {:induction false} DeterminedUpToSign(r: Rotation, h12: real, h21: real, d1: real, d2: real)
    requires PreservesNorm(r, d1, d2) && PreservesNorm(r.(h12 := h12, h21 := h21), d1, d2)
    requires r.d1 != 0.0 && r.d2 != 0.0 && r.h11 != 0.0 && r.h22 != 0.0 && r.h12 != 0.0
    ensures (h12 == r.h12 && h21 == r.h21) || (h12 == -r.h12 && h21 == -r.h21)
  {
    CancelProduct(r.d1, h12 * h12, r.h12 * r.h12);
    SquareRoots(h12, r.h12);
    var a := r.d1 * (r.h11 * r.h12);
    assert r.d2 * (r.h21 * r.h22) == -a;
    if h12 == r.h12 {
      CancelProduct(r.d2, h21 * r.h22, r.h21 * r.h22);
      CancelProduct(r.h22, h21, r.h21);
    } else {
      NegatedProducts(r.h12, r.h11, r.h11);
      NegatedProduct(r.d1, r.h11 * r.h12);
      NegatedProduct(r.d2, r.h21 * r.h22);
      CancelProduct(r.d2, h21 * r.h22, -(r.h21 * r.h22));
      NegatedProducts(r.h21, r.h22, r.h22);
      CancelProduct(r.h22, h21, -r.h21);
    }
  }

  /** For the branch that keeps the first coordinate. */
  lemma {:induction false} SmallerNormSurvives(b: Rotation, d1: real, d2: real, x1: real, y1: real)
    requires Preserves(b, d1, d2, x1, y1) && b.h11 == 1.0 && b.h22 == 1.0
    requires b.d1 > 0.0 && b.d2 != 0.0 && b.h12 != 0.0
    ensures PreservesNorm(Finished(b), d1, d2) <==> EntriesSurvive(b) || EntriesFlip(b)
  {
    hide PreservesNorm, ScaleRows, Total, Iterations;
    CorrectPreserves(b, d1, d2, x1, y1);
    CorrectEntries(b);
    var c, f := Correct(b), Finished(b);
    assert f == c.(h12 := f.h12, h21 := f.h21);
    ProductSign(b.h12, Total(b.d1));
    if PreservesNorm(f, d1, d2) {
      DeterminedUpToSign(c, f.h12, f.h21, d1, d2);
    }
    if EntriesFlip(b) {
      MirroredNorm(c, d1, d2);
    }
  }

  /** Mirroring turns flipped entries into surviving ones. */
  lemma MirroredSurvives(b: Rotation)
    requires Iterations(b.d1) + Iterations(b.d2) >= 2
    ensures EntriesSurvive(Mirrored(b)) <==> EntriesFlip(b)
  {
    hide ScaleRows, Iterations, Total;
    CorrectEntries(b);
    CorrectEntries(Mirrored(b));
    NegatedProducts(b.h12, 1.0, Total(b.d1));
    NegatedProducts(b.h21, 1.0, Total(b.d2));
  }

  lemma MirroredDominance(d1: real, d2: real, x: real, y: real)
    ensures FirstDominates(d1, d2, -x, y) <==> FirstDominates(d1, d2, x, y)
  {
    assert d1 * -x * -x == d1 * x * x;
  }

  /** Two or more iterations over both loops: when the entries are right. */
  lemma {:induction false} ManyIterations(b: Rotation, d1: real, d2: real, x: real, y: real, u: real)
    requires d1 >= 0.0 && FirstDominates(d1, d2, x, y) && u > 0.0
    requires b.h21 * x == -y && b.h12 * (d1 * x) == d2 * y && b.d1 * u == d1 && b.d2 * u == d2
    requires Iterations(b.d1) + Iterations(b.d2) >= 2
    ensures EntriesSurvive(b) <==> Coincidence(b, d1, d2, x, y)
  {
    hide EntriesSurvive, Iterations, Power, Factor, Total, FirstDominates;
    DominatingIsNonzero(d1, d2, x, y);
    if Iterations(b.d2) >= 1 {
      SecondLoopSurvives(b, d1, d2, x, y);
    } else {
      FirstLoopSpoils(b, d1, d2, x, y, u);
    }
  }

  lemma {:induction false} SmallerNormExactly(
      b: Rotation, u: real, d1: real, d2: real, x1: real, y1: real)
    requires d1 >= 0.0 && FirstDominates(d1, d2, x1, y1) && Preserves(b, d1, d2, x1, y1) && d2 * y1 != 0.0
    requires u > 0.0 && b.h11 == 1.0 && b.h22 == 1.0 && b.h21 * x1 == -y1 && b.h12 * (d1 * x1) == d2 * y1
    requires b.d1 * u == d1 && b.d2 * u == d2 && b.d1 > 0.0
    ensures PreservesNorm(Finished(b), d1, d2) <==>
            || Iterations(b.d1) + Iterations(b.d2) <= 1
            || Coincidence(b, d1, d2, x1, y1) || Coincidence(b, d1, d2, -x1, y1)
  {
    hide Preserves, PreservesNorm, Finished, Iterations, Coincidence, EntriesSurvive, EntriesFlip, FirstDominates;
    NonzeroEntries(b, u, d1, d2, x1, y1);
    SmallerNormSurvives(b, d1, d2, x1, y1);
    if Iterations(b.d1) + Iterations(b.d2) <= 1 {
      FewIterationsSurvive(b);
    } else {
      ManyIterations(b, d1, d2, x1, y1, u);
      MirroredDominance(d1, d2, x1, y1);
      MirroredEquations(b, d1, x1);
      ManyIterations(Mirrored(b), d1, d2, -x1, y1, u);
      MirroredSurvives(b);
      MirroredCoincidence(b, d1, d2, -x1, y1);
    }
  }

  lemma NonzeroEntries(b: Rotation, u: real, d1: real, d2: real, x1: real, y1: real)
    requires u > 0.0 && d2 * y1 != 0.0 && b.h12 * (d1 * x1) == d2 * y1 && b.d2 * u == d2
    ensures b.d2 != 0.0 && b.h12 != 0.0
  {
    ProductSign(d2, y1);
    ProductSign(b.d2, u);
    ProductSign(b.h12, d1 * x1);
  }

  lemma MirroredEquations(b: Rotation, d1: real, x1: real)
    ensures Mirrored(b).h21 * -x1 == b.h21 * x1
    ensures Mirrored(b).h12 * (d1 * -x1) == b.h12 * (d1 * x1)
  {
  }

  /** The coincidence depends on the weights only. */
  lemma MirroredCoincidence(b: Rotation, d1: real, d2: real, x: real, y: real)
    ensures Coincidence(Mirrored(b), d1, d2, x, y) <==> Coincidence(b, d1, d2, x, y)
  {
  }

  /** Exactly when the matrix Rotmg returns keeps the weighted norm of every
      pair: at most one rescaling iteration over both loops, or a coincidence of
      the inputs or of the inputs with the first coordinate mirrored. */
  lemma {:induction false} RotmgPreservesNormExactly(d1: real, d2: real, x1: real, y1: real)
    requires d1 >= 0.0 && d2 * y1 != 0.0
    requires FirstDominates(d1, d2, x1, y1) || d2 > 0.0
    ensures BaseStage(d1, d2, x1, y1).Rotated?
    ensures var b := BaseStage(d1, d2, x1, y1).rotation;
      PreservesNorm(Finished(b), d1, d2) <==>
      || Iterations(b.d1) + Iterations(b.d2) <= 1
      || Coincidence(b, d1, d2, x1, y1) || Coincidence(b, d1, d2, -x1, y1)
  {
    hide Preserves, PreservesNorm, Iterations, Finished, Coincidence, EntriesSurvive, BaseStage;
    BasePreserves(d1, d2, x1, y1);
    var b := BaseStage(d1, d2, x1, y1).rotation;
    if FirstDominates(d1, d2, x1, y1) {
      var c, u := SmallerShape(d1, d2, x1, y1);
      SmallerNormExactly(c, u, d1, d2, x1, y1);
    } else {
      LargerShape(d1, d2, x1, y1);
      LargerSurvives(b, d1, d2, x1, y1);
      LargerSurvivesIff(b);
      NoCoincidence(b, d1, d2, x1, y1);
    }
  }

  lemma LargerShape(d1: real, d2: real, x1: real, y1: real)
    requires d1 >= 0.0 && d2 * y1 != 0.0 && !FirstDominates(d1, d2, x1, y1) && d2 > 0.0
    ensures BaseStage(d1, d2, x1, y1).Rotated?
    ensures var b := BaseStage(d1, d2, x1, y1).rotation; b.h12 == 1.0 && b.h21 == -1.0
  {
    BasePreserves(d1, d2, x1, y1);
    hide FirstDominates, Preserves;
  }

  lemma NoCoincidence(b: Rotation, d1: real, d2: real, x1: real, y1: real)
    requires !FirstDominates(d1, d2, x1, y1)
    ensures !Coincidence(b, d1, d2, x1, y1) && !Coincidence(b, d1, d2, -x1, y1)
  {
    MirroredDominance(d1, d2, x1, y1);
    hide FirstDominates;
  }

  /** The number of iterations on a weight one step above the accepted range. */
  lemma OneIteration(d: real)
    requires GAMMA_SQUARED <= d < GAMMA_SQUARED * GAMMA_SQUARED
    ensures Iterations(d) == 1 && Factor(d) == GAMMA && Total(d) == GAMMA
  {
    var e := Rescaled(d);
    assert e == d / GAMMA_SQUARED && 1.0 <= e < GAMMA_SQUARED;
    assert !OutOfRange(e);
    assert Iterations(e) == 0;
    assert Power(GAMMA, 1) == Power(GAMMA, 0) * GAMMA;
  }

  /** Weights 2^37 and 2^25 with the pair (1, -1): two iterations run, every norm
      is kept and yet the pair is not annihilated. */
  lemma NormWithoutAnnihilation()
    ensures var stage := BaseStage(137438953472.0, 33554432.0, 1.0, -1.0);
      && stage.Rotated?
      && PreservesNorm(Finished(stage.rotation), 137438953472.0, 33554432.0)
      && !Preserves(Finished(stage.rotation), 137438953472.0, 33554432.0, 1.0, -1.0)
  {
    var d1, d2 := 137438953472.0, 33554432.0;
    assert FirstDominates(d1, d2, 1.0, -1.0) && FirstDominates(d1, d2, -1.0, -1.0);
    RotmgPreservesExactly(d1, d2, 1.0, -1.0);
    RotmgPreservesNormExactly(d1, d2, 1.0, -1.0);
    var b := BaseStage(d1, d2, 1.0, -1.0).rotation;
    var u := 1.0 + 1.0 / 4096.0;
    assert b.d1 == d1 / u && b.d2 == d2 / u;
    hide Preserves, PreservesNorm, Finished, BaseStage, FirstDominates;
    OneIteration(b.d1);
    OneIteration(b.d2);
    hide Iterations, Factor, Total;
    assert Power(Factor(b.d2), Iterations(b.d2) - 1) == 1.0;
    assert Coincidence(b, d1, d2, -1.0, -1.0);
    assert !Coincidence(b, d1, d2, 1.0, -1.0);
  }
}
