/** The xoroshiro state map, and the jumps as polynomials in it. */
module Xoroshiro {
  import opened Words

  /** The constants of an engine. */
  datatype Kind = Plus128 | Star64 {
    function Width(): (w: nat)
      ensures w == 64 || w == 32
    {
      if Plus128? then 64 else 32
    }

    /** The number of bits of a state. */
    function Degree(): nat {
      2 * Width()
    }

    function FirstRotation(): nat {
      if Plus128? then 24 else 26
    }

    function Shift(): nat {
      if Plus128? then 16 else 9
    }

    function SecondRotation(): nat {
      if Plus128? then 37 else 13
    }

    function JumpPolynomial(): seq<nat> {
      if Plus128? then [0xDF900294D8F554A5, 0x170865DF4B3201FC] else [0x77FCD1A0, 0x4CBF99BD]
    }

    function LongJumpPolynomial(): seq<nat> {
      if Plus128? then [0xD2A98B26625EEE7B, 0xDDDF9B1090AA7AC1] else [0x3F1F8B95, 0xB4E7E463]
    }
  }

  datatype State = State(first: Word, second: Word)

  predicate IsState(kind: Kind, s: State) {
    |s.first| == |s.second| == kind.Width()
  }

  function ZeroState(kind: Kind): (s: State)
    ensures IsState(kind, s)
  {
    State(Zeros(kind.Width()), Zeros(kind.Width()))
  }

  function Add(s: State, t: State): (r: State)
    requires |s.first| == |t.first| && |s.second| == |t.second|
    ensures |r.first| == |s.first| && |r.second| == |s.second|
  {
    State(Xor(s.first, t.first), Xor(s.second, t.second))
  }

  // ----- One step -----------------------------------------------------------

  function Step(kind: Kind, s: State): (r: State)
    requires IsState(kind, s)
    ensures IsState(kind, r)
  {
    var second := Xor(s.second, s.first);
    State(Xor(Xor(RotateLeft(s.first, kind.FirstRotation()), second), ShiftLeft(second, kind.Shift())),
          RotateLeft(second, kind.SecondRotation()))
  }

  function StepBack(kind: Kind, s: State): (r: State)
    requires IsState(kind, s)
    ensures IsState(kind, r)
  {
    var second := RotateRight(s.second, kind.SecondRotation());
    var first := RotateRight(Xor(Xor(s.first, ShiftLeft(second, kind.Shift())), second), kind.FirstRotation());
    State(first, Xor(second, first))
  }

  lemma XorCancels(a: Word, b: Word, c: Word)
    requires |a| == |b| == |c|
    ensures Xor(Xor(a, b), b) == a
    ensures Xor(Xor(Xor(Xor(a, b), c), c), b) == a
    ensures Xor(Xor(Xor(Xor(a, b), c), b), c) == a
  {
  }

  lemma RotationsCancel(a: Word, k: nat)
    requires k <= |a|
    ensures RotateRight(RotateLeft(a, k), k) == a && RotateLeft(RotateRight(a, k), k) == a
  {
  }

  /** The step is invertible on both sides. */
  lemma StepIsInvertible(kind: Kind, s: State)
    requires IsState(kind, s)
    ensures StepBack(kind, Step(kind, s)) == s
    ensures Step(kind, StepBack(kind, s)) == s
  {
    hide Xor, RotateLeft, RotateRight, ShiftLeft;
    var second := Xor(s.second, s.first);
    XorCancels(s.second, s.first, s.first);
    RotationsCancel(second, kind.SecondRotation());
    RotationsCancel(s.first, kind.FirstRotation());
    XorCancels(RotateLeft(s.first, kind.FirstRotation()), second, ShiftLeft(second, kind.Shift()));
    var back := RotateRight(s.second, kind.SecondRotation());
    var shifted := ShiftLeft(back, kind.Shift());
    var unrotated := Xor(Xor(s.first, shifted), back);
    RotationsCancel(s.second, kind.SecondRotation());
    RotationsCancel(unrotated, kind.FirstRotation());
    XorCancels(back, RotateRight(unrotated, kind.FirstRotation()), back);
    XorCancels(s.first, shifted, back);
  }

  lemma ZeroSteps(kind: Kind)
    ensures Step(kind, ZeroState(kind)) == ZeroState(kind)
  {
    var z := Zeros(kind.Width());
    assert Xor(z, z) == z && ShiftLeft(z, kind.Shift()) == z;
    assert RotateLeft(z, kind.FirstRotation()) == z && RotateLeft(z, kind.SecondRotation()) == z;
  }

  lemma RotationAdds(a: Word, b: Word, k: nat)
    requires |a| == |b| && k <= |a|
    ensures RotateLeft(Xor(a, b), k) == Xor(RotateLeft(a, k), RotateLeft(b, k))
  {
  }

  lemma ShiftAdds(a: Word, b: Word, k: nat)
    requires |a| == |b|
    ensures ShiftLeft(Xor(a, b), k) == Xor(ShiftLeft(a, k), ShiftLeft(b, k))
  {
  }

  lemma XorShuffles(a: Word, b: Word, c: Word, d: Word)
    requires |a| == |b| == |c| == |d|
    ensures Xor(Xor(a, b), Xor(c, d)) == Xor(Xor(a, c), Xor(b, d))
  {
  }

  /** The step is linear over GF(2). */
  lemma StepIsLinear(kind: Kind, s: State, t: State)
    requires IsState(kind, s) && IsState(kind, t)
    ensures Step(kind, Add(s, t)) == Add(Step(kind, s), Step(kind, t))
  {
    hide Xor, RotateLeft, ShiftLeft;
    var u, v := Xor(s.second, s.first), Xor(t.second, t.first);
    XorShuffles(s.second, t.second, s.first, t.first);
    RotationAdds(s.first, t.first, kind.FirstRotation());
    RotationAdds(u, v, kind.SecondRotation());
    ShiftAdds(u, v, kind.Shift());
    var a, b := RotateLeft(s.first, kind.FirstRotation()), RotateLeft(t.first, kind.FirstRotation());
    var c, d := ShiftLeft(u, kind.Shift()), ShiftLeft(v, kind.Shift());
    XorShuffles(a, b, u, v);
    XorShuffles(Xor(a, u), Xor(b, v), c, d);
  }

  function Steps(kind: Kind, s: State, n: nat): (r: State)
    requires IsState(kind, s)
    ensures IsState(kind, r)
    decreases n
  {
    if n == 0 then s else Steps(kind, Step(kind, s), n - 1)
  }

  /** No run of steps reaches the zero state from another. */
  lemma {:induction false} StepsStayNonzero(kind: Kind, s: State, n: nat)
    requires IsState(kind, s) && s != ZeroState(kind)
    ensures Steps(kind, s, n) != ZeroState(kind)
    decreases n
  {
    hide Step, StepBack, ZeroState;
    if n == 0 {
    } else {
      StepIsInvertible(kind, s);
      StepIsInvertible(kind, ZeroState(kind));
      ZeroSteps(kind);
      StepsStayNonzero(kind, Step(kind, s), n - 1);
    }
  }

  // ----- Polynomials in the step --------------------------------------------

  function Times(kind: Kind, coefficient: bool, s: State): (r: State)
    requires IsState(kind, s)
    ensures IsState(kind, r)
  {
    if coefficient then s else ZeroState(kind)
  }

  /** The value at `s` of the polynomial in the step map with these coefficients. */
  function Evaluate(kind: Kind, coefficients: Word, s: State): (r: State)
    requires IsState(kind, s)
    ensures IsState(kind, r)
  {
    if |coefficients| == 0 then ZeroState(kind)
    else Add(Times(kind, coefficients[0], s), Evaluate(kind, coefficients[1..], Step(kind, s)))
  }

  /** The coefficients of a jump polynomial, lowest degree first. */
  function Coefficients(words: seq<nat>, width: nat): Word {
    if |words| == 0 then [] else Bits(words[0], width) + Coefficients(words[1..], width)
  }

  lemma AddLaws(kind: Kind, s: State, t: State, u: State, v: State)
    requires IsState(kind, s) && IsState(kind, t) && IsState(kind, u) && IsState(kind, v)
    ensures Add(Add(s, t), Add(u, v)) == Add(Add(s, u), Add(t, v))
    ensures Add(Add(s, t), u) == Add(s, Add(t, u))
    ensures Add(s, ZeroState(kind)) == s && Add(ZeroState(kind), s) == s
    ensures Add(s, s) == ZeroState(kind)
  {
    XorShuffles(s.first, t.first, u.first, v.first);
    XorShuffles(s.second, t.second, u.second, v.second);
    assert Xor(Xor(s.first, t.first), u.first) == Xor(s.first, Xor(t.first, u.first));
    assert Xor(Xor(s.second, t.second), u.second) == Xor(s.second, Xor(t.second, u.second));
  }

  lemma NothingAccumulated(kind: Kind, s: State)
    requires IsState(kind, s)
    ensures Add(ZeroState(kind), s) == s && Add(s, ZeroState(kind)) == s
  {
    AddLaws(kind, s, s, s, s);
  }

  /** Moves one term of the polynomial into the accumulator. */
  lemma JumpBit(kind: Kind, accumulated: State, polynomial: Word, s: State)
    requires IsState(kind, accumulated) && IsState(kind, s) && |polynomial| > 0
    ensures Add(accumulated, Evaluate(kind, polynomial, s))
            == Add(if polynomial[0] then Add(accumulated, s) else accumulated,
                   Evaluate(kind, polynomial[1..], Step(kind, s)))
  {
    hide Add, Step;
    var rest := Evaluate(kind, polynomial[1..], Step(kind, s));
    AddLaws(kind, accumulated, s, rest, s);
    AddLaws(kind, rest, s, s, s);
  }

  /** Every polynomial is linear. */
  lemma {:induction false} EvaluateIsLinear(kind: Kind, p: Word, s: State, t: State)
    requires IsState(kind, s) && IsState(kind, t)
    ensures Evaluate(kind, p, Add(s, t)) == Add(Evaluate(kind, p, s), Evaluate(kind, p, t))
  {
    hide Step, Add;
    var z := ZeroState(kind);
    AddLaws(kind, z, z, z, z);
    if |p| == 0 {
    } else {
      StepIsLinear(kind, s, t);
      EvaluateIsLinear(kind, p[1..], Step(kind, s), Step(kind, t));
      var u, v := Evaluate(kind, p[1..], Step(kind, s)), Evaluate(kind, p[1..], Step(kind, t));
      AddLaws(kind, Times(kind, p[0], s), Times(kind, p[0], t), u, v);
    }
  }

  /** Every polynomial commutes with a step. */
  lemma {:induction false} EvaluateCommutesWithStep(kind: Kind, p: Word, s: State)
    requires IsState(kind, s)
    ensures Evaluate(kind, p, Step(kind, s)) == Step(kind, Evaluate(kind, p, s))
  {
    hide Step, Add;
    ZeroSteps(kind);
    if |p| == 0 {
    } else {
      EvaluateCommutesWithStep(kind, p[1..], Step(kind, s));
      StepIsLinear(kind, Times(kind, p[0], s), Evaluate(kind, p[1..], Step(kind, s)));
    }
  }

  /** Every polynomial commutes with any number of steps. */
  lemma {:induction false} EvaluateCommutesWithSteps(kind: Kind, p: Word, s: State, n: nat)
    requires IsState(kind, s)
    ensures Evaluate(kind, p, Steps(kind, s, n)) == Steps(kind, Evaluate(kind, p, s), n)
    decreases n
  {
    hide Step, Evaluate;
    if n == 0 {
    } else {
      EvaluateCommutesWithStep(kind, p, s);
      EvaluateCommutesWithSteps(kind, p, Step(kind, s), n - 1);
    }
  }

  lemma {:induction false} EvaluateZero(kind: Kind, p: Word)
    ensures Evaluate(kind, p, ZeroState(kind)) == ZeroState(kind)
  {
    hide Step, Add;
    var z := ZeroState(kind);
    AddLaws(kind, z, z, z, z);
    if |p| == 0 {
    } else {
      ZeroSteps(kind);
      EvaluateZero(kind, p[1..]);
    }
  }

  /** Any two polynomials commute. */
  lemma {:induction false} EvaluationsCommute(kind: Kind, p: Word, q: Word, s: State)
    requires IsState(kind, s)
    ensures Evaluate(kind, p, Evaluate(kind, q, s)) == Evaluate(kind, q, Evaluate(kind, p, s))
  {
    EvaluateZero(kind, q);
    if |p| == 0 {
    } else {
      hide Step, Add;
      EvaluateCommutesWithStep(kind, q, s);
      EvaluationsCommute(kind, p[1..], q, Step(kind, s));
      EvaluateIsLinear(kind, q, Times(kind, p[0], s), Evaluate(kind, p[1..], Step(kind, s)));
    }
  }
}
