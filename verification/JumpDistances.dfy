/** How far the jumps lead: a jump is a power of two of steps. */
module JumpDistances {
  import opened Words
  import opened Xoroshiro
  import opened Registers
  import opened RegisterSteps
  import opened StepPolynomials
  import opened Spans
  import opened Frobenius
  import opened JumpTables

  // ----- The characteristic polynomials -------------------------------------

  const NOTHING: Pair := Pair(0, 0)

  lemma NothingHeld(kind: Kind)
    ensures Held(kind, NOTHING) == ZeroState(kind) && IsPair(kind, NOTHING)
  {
    hide FromBits;
    ZeroFrom(kind.Width());
  }

  /** A polynomial without its last term. */
  lemma TermsWithoutTop(kind: Kind, s: State)
    requires IsState(kind, s) && !Top(kind, Terms(kind))
    ensures var n := kind.Degree() - 1;
      && FromBits(Terms(kind), n + 1) == FromBits(Terms(kind), n) + [false]
      && Evaluate(kind, [false], s) == ZeroState(kind)
  {
    hide FromBits, Places, Low, Top, Evaluate, Terms;
    var n := kind.Degree() - 1;
    var p := Terms(kind);
    RegisterSplits(p, n, 1);
    BitFrom(Places(p, n), 1, 0);
    assert Places(Places(p, n), 0) == Places(p, n) by {
      PlacesAdd(p, n, 0);
    }
    TopIs(kind, p);
    OneTerm(kind, false, s);
    NoTerm(kind, s);
  }

  lemma NoTerm(kind: Kind, s: State)
    requires IsState(kind, s)
    ensures Times(kind, false, s) == ZeroState(kind)
  {
  }

  /** A walk that accumulates the polynomial's terms ends at its value. */
  lemma WalkReaches(kind: Kind, s: Pair, last: Pair, sum: Pair)
    requires Walk(kind, Terms(kind), kind.Degree() - 1, s, NOTHING, last, sum) && IsPair(kind, s)
    requires !Top(kind, Terms(kind)) && RegisterStep(kind, last) == sum
    ensures Applied(kind, Terms(kind), Held(kind, s)) == Steps(kind, Held(kind, s), kind.Degree())
  {
    hide FromBits, Evaluate, Walk, Add, Step, RegisterStep, Terms, Top, Held, IsPair, NOTHING, Steps;
    var n := kind.Degree() - 1;
    NothingHeld(kind);
    WalkEvaluates(kind, Terms(kind), n, s, NOTHING, last, sum, [false]);
    TermsWithoutTop(kind, Held(kind, last));
    NothingAccumulated(kind, Applied(kind, Terms(kind), Held(kind, s)));
    NothingAccumulated(kind, Held(kind, sum));
    RegisterStepIs(kind, last);
    LastStep(kind, Held(kind, s), n);
  }

  lemma LastStep(kind: Kind, s: State, n: nat)
    requires IsState(kind, s)
    ensures Steps(kind, s, n + 1) == Step(kind, Steps(kind, s, n))
  {
    hide Step;
    StepsAdd(kind, s, n, 1);
    assert Steps(kind, Steps(kind, s, n), 1) == Steps(kind, Step(kind, Steps(kind, s, n)), 0);
  }

  lemma WalkSoundsLast(kind: Kind, s: Pair, last: Pair, sum: Pair)
    requires Walk(kind, Terms(kind), kind.Degree() - 1, s, NOTHING, last, sum) && IsPair(kind, s)
    requires Low(last.first)
    ensures SoundsLast(kind, Held(kind, s), kind.Degree())
  {
    hide Walk, Step, Steps, Terms, IsPair, NOTHING, Low, Evaluate, Add;
    var n := kind.Degree() - 1;
    forall i | 0 <= i <= n
      ensures Signal(Steps(kind, Held(kind, s), i)) == (i == n)
    {
      if i < n {
        WalkIsEven(kind, Terms(kind), n, s, NOTHING, last, sum, i);
      } else {
        NothingHeld(kind);
        WalkEvaluates(kind, Terms(kind), n, s, NOTHING, last, sum, [false]);
      }
    }
  }

  /** The step satisfies the polynomial on every state. */
  lemma Characteristic(kind: Kind, s: Pair, last: Pair, sum: Pair)
    requires Walk(kind, Terms(kind), kind.Degree() - 1, s, NOTHING, last, sum) && IsPair(kind, s)
    requires !Top(kind, Terms(kind)) && RegisterStep(kind, last) == sum && Low(last.first)
    ensures IsPower(kind, Terms(kind), kind.Degree())
  {
    hide FromBits, Evaluate, Walk, RegisterStep, Terms, Top, Held, IsPair, NOTHING, Steps, Low, SoundsLast;
    WalkReaches(kind, s, last, sum);
    WalkSoundsLast(kind, s, last, sum);
    forall t | IsState(kind, t)
      ensures Applied(kind, Terms(kind), t) == Steps(kind, t, kind.Degree())
    {
      StepsEverywhere(kind, Held(kind, s), FromBits(Terms(kind), kind.Degree()), kind.Degree(), t);
    }
  }

  lemma PlusEnds()
    ensures RegisterStep(Plus128, PLUS_LAST) == PLUS_SUM && Low(PLUS_LAST.first)
    ensures IsPair(Plus128, PLUS_FIRST) && !Top(Plus128, PLUS_TERMS)
  {
  }

  lemma StarEnds()
    ensures RegisterStep(Star64, STAR_LAST) == STAR_SUM && Low(STAR_LAST.first)
    ensures IsPair(Star64, STAR_FIRST) && !Top(Star64, STAR_TERMS)
  {
  }

  /** Each engine's step satisfies its characteristic polynomial. */
  lemma TermsArePowers(kind: Kind)
    ensures IsPower(kind, Terms(kind), kind.Degree())
  {
    hide Walk, RegisterStep, Low, IsPower, IsPair, Top;
    if kind.Plus128? {
      PlusEnds();
      PlusWalk0();
      Characteristic(Plus128, PLUS_FIRST, PLUS_LAST, PLUS_SUM);
    } else {
      StarEnds();
      StarWalk0();
      Characteristic(Star64, STAR_FIRST, STAR_LAST, STAR_SUM);
    }
  }

  lemma RowsAre(kind: Kind)
    ensures RowsArePowers(kind)
  {
    hide IsPower, PlusRowsArePowers, StarRowsArePowers;
    TermsArePowers(kind);
    if kind.Plus128? {
      PlusRows();
    } else {
      StarRows();
    }
  }

  lemma PowerIs(kind: Kind, b: Register, n: nat, s: State)
    requires IsPower(kind, b, n) && IsState(kind, s)
    ensures Applied(kind, b, s) == Steps(kind, s, n)
  {
  }

  // ----- The jump polynomials in registers ----------------------------------

  lemma TwoCoefficients(a: nat, b: nat, width: nat)
    ensures Coefficients([a, b], width) == Bits(a, width) + Bits(b, width)
  {
    hide Bits;
    assert [a, b][1..] == [b] && [b][1..] == [];
    assert Coefficients([b], width) == Bits(b, width);
  }

  /** Two words of the 128-bit engine's polynomials in a register. */
  lemma PlusCoefficients(a: nat, b: nat, r: Register)
    requires Spelled(a, r, 8) && Spelled(a / 0x1_0000_0000, r >> 32, 8)
    requires Spelled(b, r >> 64, 8) && Spelled(b / 0x1_0000_0000, r >> 64 >> 32, 8)
    ensures Coefficients([a, b], 64) == FromBits(r, 128)
  {
    hide Bits, FromBits, Spelled, Places, Coefficients;
    SixteenDigits(a, r);
    SixteenDigits(b, r >> 64);
    SixtyFourPlaces(r);
    RegisterSplits(r, 64, 64);
    TwoCoefficients(a, b, 64);
  }

  lemma StarCoefficients(a: nat, b: nat, r: Register)
    requires Spelled(a, r, 8) && Spelled(b, r >> 32, 8)
    ensures Coefficients([a, b], 32) == FromBits(r, 64)
  {
    hide Bits, FromBits, Spelled, Places, Coefficients;
    SpelledBits(a, r, 8);
    SpelledBits(b, r >> 32, 8);
    ThirtyTwoPlaces(r);
    RegisterSplits(r, 32, 32);
    TwoCoefficients(a, b, 32);
  }

  function JumpRegister(kind: Kind): Register {
    if kind.Plus128? then P64 else S32
  }

  function LongJumpRegister(kind: Kind): Register {
    if kind.Plus128? then P96 else S48
  }

  lemma JumpIsHeld(kind: Kind)
    ensures Coefficients(kind.JumpPolynomial(), kind.Width()) == FromBits(JumpRegister(kind), kind.Degree())
  {
    hide Bits, FromBits, Coefficients;
    if kind.Plus128? {
      PlusCoefficients(0xDF900294D8F554A5, 0x170865DF4B3201FC, P64);
    } else {
      StarCoefficients(0x77FCD1A0, 0x4CBF99BD, S32);
    }
  }

  lemma LongJumpIsHeld(kind: Kind)
    ensures Coefficients(kind.LongJumpPolynomial(), kind.Width()) == FromBits(LongJumpRegister(kind), kind.Degree())
  {
    hide Bits, FromBits, Coefficients;
    if kind.Plus128? {
      PlusCoefficients(0xD2A98B26625EEE7B, 0xDDDF9B1090AA7AC1, P96);
    } else {
      StarCoefficients(0x3F1F8B95, 0xB4E7E463, S48);
    }
  }

  // ----- Distances ----------------------------------------------------------

  /** How many steps a long jump makes, as a power of two. */
  function LongDistance(kind: Kind): nat {
    if kind.Plus128? then 96 else 48
  }

  lemma PowersReached(kind: Kind)
    ensures IsPower(kind, JumpRegister(kind), Pow2(kind.Width()))
    ensures IsPower(kind, LongJumpRegister(kind), Pow2(LongDistance(kind)))
    ensures IsPower(kind, 2, Pow2(kind.Degree()))
  {
    hide IsPower, RowsArePowers, Pow2;
    RowsAre(kind);
    if kind.Plus128? {
      PlusPower32();
      PlusPower64();
      PlusPower96();
      PlusPower128();
    } else {
      StarPower32();
      StarPower48();
      StarPower64();
    }
  }

  /** A jump makes 2^64 steps of the 128-bit engine, and 2^32 of the 64-bit one. */
  lemma JumpIsSteps(kind: Kind, s: State)
    requires IsState(kind, s)
    ensures Evaluate(kind, Coefficients(kind.JumpPolynomial(), kind.Width()), s) == Steps(kind, s, Pow2(kind.Width()))
  {
    hide IsPower, Pow2, Evaluate, Steps, Coefficients, FromBits, JumpRegister, LongJumpRegister;
    PowersReached(kind);
    JumpIsHeld(kind);
    PowerIs(kind, JumpRegister(kind), Pow2(kind.Width()), s);
  }

  /** A long jump makes 2^96 steps of the 128-bit engine, and 2^48 of the 64-bit one. */
  lemma LongJumpIsSteps(kind: Kind, s: State)
    requires IsState(kind, s)
    ensures Evaluate(kind, Coefficients(kind.LongJumpPolynomial(), kind.Width()), s)
            == Steps(kind, s, Pow2(LongDistance(kind)))
  {
    hide IsPower, Pow2, Evaluate, Steps, Coefficients, FromBits, JumpRegister, LongJumpRegister;
    PowersReached(kind);
    LongJumpIsHeld(kind);
    PowerIs(kind, LongJumpRegister(kind), Pow2(LongDistance(kind)), s);
  }

  /** After 2^128 - 1 steps of the 128-bit engine, and 2^64 - 1 of the 64-bit one, every state recurs. */
  lemma StatesRecur(kind: Kind, s: State)
    requires IsState(kind, s)
    ensures Steps(kind, s, Pow2(kind.Degree()) - 1) == s
  {
    hide IsPower, Pow2, Step, StepBack, Steps, JumpRegister, LongJumpRegister;
    var n := Pow2(kind.Degree()) - 1;
    PowersReached(kind);
    PowerIs(kind, 2, n + 1, s);
    StepIsPower(kind);
    assert Pow2(0) == 1 by {
      PowerOfZero();
    }
    PowerIs(kind, 2, 1, s);
    LastStep(kind, s, n);
    LastStep(kind, s, 0);
    NoSteps(kind, s);
    StepIsInvertible(kind, s);
    StepIsInvertible(kind, Steps(kind, s, n));
  }

  lemma PowerOfZero()
    ensures Pow2(0) == 1
  {
  }

  lemma NoSteps(kind: Kind, s: State)
    requires IsState(kind, s)
    ensures Steps(kind, s, 0) == s
  {
  }

  /** No jump leads from a non-zero state to zero. */
  lemma JumpsStayNonzero(kind: Kind, s: State)
    requires IsState(kind, s) && s != ZeroState(kind)
    ensures Evaluate(kind, Coefficients(kind.JumpPolynomial(), kind.Width()), s) != ZeroState(kind)
    ensures Evaluate(kind, Coefficients(kind.LongJumpPolynomial(), kind.Width()), s) != ZeroState(kind)
  {
    hide Pow2, Evaluate, Steps, Coefficients;
    JumpIsSteps(kind, s);
    LongJumpIsSteps(kind, s);
    StepsStayNonzero(kind, s, Pow2(kind.Width()));
    StepsStayNonzero(kind, s, Pow2(LongDistance(kind)));
  }
}
