/** Sums, products and squares of polynomials in the step map, and the states they span. */
module StepPolynomials {
  import opened Words
  import opened Xoroshiro

  lemma {:induction false} StepsAdd(kind: Kind, s: State, m: nat, n: nat)
    requires IsState(kind, s)
    ensures Steps(kind, Steps(kind, s, m), n) == Steps(kind, s, m + n)
    decreases m
  {
    hide Step;
    if m == 0 {
    } else {
      StepsAdd(kind, Step(kind, s), m - 1, n);
    }
  }

  lemma {:induction false} EvaluateZeros(kind: Kind, n: nat, s: State)
    requires IsState(kind, s)
    ensures Evaluate(kind, Zeros(n), s) == ZeroState(kind)
    decreases n
  {
    hide Step, Add;
    if n == 0 {
    } else {
      assert Zeros(n)[1..] == Zeros(n - 1);
      EvaluateZeros(kind, n - 1, Step(kind, s));
      NothingAccumulated(kind, ZeroState(kind));
    }
  }

  /** A polynomial in two pieces. */
  lemma {:induction false} EvaluateConcat(kind: Kind, u: Word, w: Word, s: State)
    requires IsState(kind, s)
    ensures Evaluate(kind, u + w, s) == Add(Evaluate(kind, u, s), Evaluate(kind, w, Steps(kind, s, |u|)))
  {
    hide Step, Add;
    if |u| == 0 {
      assert u + w == w;
      NothingAccumulated(kind, Evaluate(kind, w, s));
    } else {
      assert (u + w)[1..] == u[1..] + w;
      EvaluateConcat(kind, u[1..], w, Step(kind, s));
      var tail := Evaluate(kind, w, Steps(kind, s, |u|));
      var z := ZeroState(kind);
      AddLaws(kind, Times(kind, u[0], s), Evaluate(kind, u[1..], Step(kind, s)), tail, z);
    }
  }

  lemma TimesXor(kind: Kind, a: bool, b: bool, s: State)
    requires IsState(kind, s)
    ensures Times(kind, a != b, s) == Add(Times(kind, a, s), Times(kind, b, s))
  {
    var z := ZeroState(kind);
    AddLaws(kind, s, z, z, z);
    AddLaws(kind, z, z, z, z);
  }

  /** The sum of two polynomials. */
  lemma {:induction false} EvaluateXor(kind: Kind, u: Word, w: Word, s: State)
    requires IsState(kind, s) && |u| == |w|
    ensures Evaluate(kind, Xor(u, w), s) == Add(Evaluate(kind, u, s), Evaluate(kind, w, s))
  {
    hide Step, Add, Times;
    if |u| == 0 {
      NothingAccumulated(kind, ZeroState(kind));
    } else {
      assert Xor(u, w)[1..] == Xor(u[1..], w[1..]);
      EvaluateXor(kind, u[1..], w[1..], Step(kind, s));
      TimesXor(kind, u[0], w[0], s);
      AddLaws(kind, Times(kind, u[0], s), Times(kind, w[0], s),
              Evaluate(kind, u[1..], Step(kind, s)), Evaluate(kind, w[1..], Step(kind, s)));
    }
  }

  // ----- Squares ------------------------------------------------------------

  /** The polynomial whose coefficients stand at twice the degrees of the given ones. */
  function EvaluateDoubled(kind: Kind, coefficients: Word, s: State): (r: State)
    requires IsState(kind, s)
    ensures IsState(kind, r)
  {
    if |coefficients| == 0 then ZeroState(kind)
    else
      Add(Times(kind, coefficients[0], s), EvaluateDoubled(kind, coefficients[1..], Step(kind, Step(kind, s))))
  }

  lemma {:induction false} DoubledConcat(kind: Kind, u: Word, w: Word, s: State)
    requires IsState(kind, s)
    ensures EvaluateDoubled(kind, u + w, s)
            == Add(EvaluateDoubled(kind, u, s), EvaluateDoubled(kind, w, Steps(kind, s, 2 * |u|)))
  {
    hide Step, Add;
    if |u| == 0 {
      assert u + w == w;
      NothingAccumulated(kind, EvaluateDoubled(kind, w, s));
    } else {
      assert (u + w)[1..] == u[1..] + w;
      var next := Step(kind, Step(kind, s));
      DoubledConcat(kind, u[1..], w, next);
      var tail := EvaluateDoubled(kind, w, Steps(kind, s, 2 * |u|));
      assert Steps(kind, s, 2 * |u|) == Steps(kind, next, 2 * |u[1..]|);
      var z := ZeroState(kind);
      AddLaws(kind, Times(kind, u[0], s), EvaluateDoubled(kind, u[1..], next), tail, z);
    }
  }

  /** In a square the mixed terms cancel. */
  lemma {:induction false} SquareIsDoubled(kind: Kind, w: Word, s: State)
    requires IsState(kind, s)
    ensures Evaluate(kind, w, Evaluate(kind, w, s)) == EvaluateDoubled(kind, w, s)
  {
    hide Step, Add;
    if |w| == 0 {
    } else {
      SquareIsDoubled(kind, w[1..], Step(kind, Step(kind, s)));
      TwiceApplied(kind, w, s);
    }
  }

  /** The head and the tail of a polynomial applied to its own value. */
  lemma TwiceApplied(kind: Kind, w: Word, s: State)
    requires IsState(kind, s) && |w| > 0
    ensures var next := Step(kind, s);
      Evaluate(kind, w, Evaluate(kind, w, s))
      == Add(Times(kind, w[0], s), Evaluate(kind, w[1..], Evaluate(kind, w[1..], Step(kind, next))))
  {
    hide Step, Add, Evaluate;
    var head, tail := Times(kind, w[0], s), Evaluate(kind, w[1..], Step(kind, s));
    var last := Evaluate(kind, w[1..], Step(kind, tail));
    HeadAndTail(kind, w, s);
    HeadAndTail(kind, w, Add(head, tail));
    StepIsLinear(kind, head, tail);
    EvaluateIsLinear(kind, w[1..], Step(kind, head), Step(kind, tail));
    EvaluateCommutesWithStep(kind, w[1..], Step(kind, s));
    if w[0] {
      SharedCancels(kind, s, tail, last);
    } else {
      ZeroSteps(kind);
      EvaluateZero(kind, w[1..]);
      NothingAccumulated(kind, last);
    }
  }

  lemma SharedCancels(kind: Kind, s: State, t: State, u: State)
    requires IsState(kind, s) && IsState(kind, t) && IsState(kind, u)
    ensures Add(Add(s, t), Add(t, u)) == Add(s, u)
  {
    hide Add;
    AddLaws(kind, s, t, Add(t, u), u);
    AddLaws(kind, t, t, u, u);
    NothingAccumulated(kind, u);
  }

  lemma HeadAndTail(kind: Kind, w: Word, s: State)
    requires IsState(kind, s) && |w| > 0
    ensures Evaluate(kind, w, s) == Add(Times(kind, w[0], s), Evaluate(kind, w[1..], Step(kind, s)))
  {
  }
}
