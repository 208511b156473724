/** The xoroshiro steps, and polynomials in them, in register arithmetic. */
module RegisterSteps {
  import opened Words
  import opened Xoroshiro
  import opened Registers

  datatype Pair = Pair(first: Register, second: Register)

  function Turn24(b: Register): Register {
    (b << 24) ^ (b >> 40)
  }

  function Turn37(b: Register): Register {
    (b << 37) ^ (b >> 27)
  }

  function Lift16(b: Register): Register {
    b << 16
  }

  function Turn26(b: Register): Register {
    (b << 26) ^ (b >> 6)
  }

  function Turn13(b: Register): Register {
    (b << 13) ^ (b >> 19)
  }

  function Lift9(b: Register): Register {
    b << 9
  }

  function Cut32(b: Register): Register {
    b & LOW_32
  }

  function Cut64(b: Register): Register {
    b & LOW_64
  }

  function PlusStep(s: Pair): Pair {
    var mixed := Exclusive(s.second, s.first);
    Pair(Cut64(Exclusive(Exclusive(Turn24(s.first), mixed), Lift16(mixed))), Cut64(Turn37(mixed)))
  }

  function StarStep(s: Pair): Pair {
    var mixed := Exclusive(s.second, s.first);
    Pair(Cut32(Exclusive(Exclusive(Turn26(s.first), mixed), Lift9(mixed))), Cut32(Turn13(mixed)))
  }

  function RegisterStep(kind: Kind, s: Pair): Pair {
    if kind.Plus128? then PlusStep(s) else StarStep(s)
  }

  /** Registers whose contents have the width of the engine. */
  predicate IsPair(kind: Kind, s: Pair) {
    IsNarrow(kind, s.first) && IsNarrow(kind, s.second)
  }

  predicate IsNarrow(kind: Kind, b: Register) {
    if kind.Plus128? then b <= LOW_64 else b <= LOW_32
  }

  /** The state two registers hold. */
  function Held(kind: Kind, s: Pair): (state: State)
    ensures IsState(kind, state)
  {
    State(FromBits(s.first, kind.Width()), FromBits(s.second, kind.Width()))
  }

  lemma Holding(kind: Kind, b: Register)
    requires IsNarrow(kind, b)
    ensures Holds(b, kind.Width())
  {
    hide Places;
    if kind.Plus128? {
      SixtyFourPlaces(b);
    } else {
      ThirtyTwoPlaces(b);
    }
  }

  lemma Turn24Is(b: Register)
    ensures Turn24(b) == Exclusive(Up(b, 24), Places(b, 40))
  {
    hide Up, Places;
    TwentyFourUp(b);
    FortyPlaces(b);
  }

  lemma Turn37Is(b: Register)
    ensures Turn37(b) == Exclusive(Up(b, 37), Places(b, 27))
  {
    hide Up, Places;
    ThirtySevenUp(b);
    TwentySevenPlaces(b);
  }

  lemma Turn26Is(b: Register)
    ensures Turn26(b) == Exclusive(Up(b, 26), Places(b, 6))
  {
    hide Up, Places;
    TwentySixUp(b);
    SixPlaces(b);
  }

  lemma Turn13Is(b: Register)
    ensures Turn13(b) == Exclusive(Up(b, 13), Places(b, 19))
  {
    hide Up, Places;
    ThirteenUp(b);
    NineteenPlaces(b);
  }

  lemma LiftsAre(b: Register)
    ensures Lift16(b) == Up(b, 16) && Lift9(b) == Up(b, 9)
  {
    hide Up;
    SixteenUp(b);
    NineUp(b);
  }

  /** The step of a state in registers, by shift amounts. */
  function ShiftedStep(s: Pair, n: nat, a: nat, b: nat, c: nat): Pair
    requires a <= n && c <= n
  {
    var mixed := Exclusive(s.second, s.first);
    Pair(Exclusive(Exclusive(Exclusive(Up(s.first, a), Places(s.first, n - a)), mixed), Up(mixed, b)),
         Exclusive(Up(mixed, c), Places(mixed, n - c)))
  }

  lemma {:induction false} ShiftedStepIs(kind: Kind, s: Pair)
    requires Holds(s.first, kind.Width()) && Holds(s.second, kind.Width())
    requires Holds(Exclusive(s.second, s.first), kind.Width())
    ensures Step(kind, Held(kind, s))
            == Held(kind, ShiftedStep(s, kind.Width(), kind.FirstRotation(), kind.Shift(), kind.SecondRotation()))
  {
    hide FromBits, Holds, Exclusive, Up, Places, ShiftLeft, RotateLeft, Xor;
    var n := kind.Width();
    var mixed := Exclusive(s.second, s.first);
    XorFrom(s.second, s.first, n);
    RotateFrom(s.first, n, kind.FirstRotation());
    RotateFrom(mixed, n, kind.SecondRotation());
    LeftFrom(mixed, n, kind.Shift());
    var rotated := Exclusive(Up(s.first, kind.FirstRotation()), Places(s.first, n - kind.FirstRotation()));
    XorFrom(rotated, mixed, n);
    XorFrom(Exclusive(rotated, mixed), Up(mixed, kind.Shift()), n);
  }

  lemma NarrowXor(kind: Kind, a: Register, b: Register)
    requires IsNarrow(kind, a) && IsNarrow(kind, b)
    ensures IsNarrow(kind, Exclusive(a, b))
  {
  }

  function Cut(kind: Kind, b: Register): Register {
    if kind.Plus128? then Cut64(b) else Cut32(b)
  }

  lemma PlusStepIs(s: Pair)
    ensures var t := ShiftedStep(s, 64, 24, 16, 37);
      PlusStep(s) == Pair(Cut64(t.first), Cut64(t.second))
  {
    hide Up, Places, Exclusive, Turn24, Turn37, Lift16, Cut64;
    var mixed := Exclusive(s.second, s.first);
    Turn24Is(s.first);
    Turn37Is(mixed);
    LiftsAre(mixed);
  }

  lemma StarStepIs(s: Pair)
    ensures var t := ShiftedStep(s, 32, 26, 9, 13);
      StarStep(s) == Pair(Cut32(t.first), Cut32(t.second))
  {
    hide Up, Places, Exclusive, Turn26, Turn13, Lift9, Cut32;
    var mixed := Exclusive(s.second, s.first);
    Turn26Is(s.first);
    Turn13Is(mixed);
    LiftsAre(mixed);
  }

  lemma CutIsMask(b: Register)
    ensures Cut32(b) == Masked(b, LOW_32) && Cut64(b) == Masked(b, LOW_64)
  {
  }

  lemma Cut32IsNarrow(b: Register)
    ensures Cut32(b) <= LOW_32
  {
  }

  lemma Cut64IsNarrow(b: Register)
    ensures Cut64(b) <= LOW_64
  {
  }

  lemma CutFrom(kind: Kind, b: Register)
    ensures FromBits(Cut(kind, b), kind.Width()) == FromBits(b, kind.Width()) && IsNarrow(kind, Cut(kind, b))
  {
    hide FromBits, LowOnes, Masked, Cut32, Cut64;
    CutIsMask(b);
    Cut32IsNarrow(b);
    Cut64IsNarrow(b);
    LowOnes32();
    LowOnes64();
    MaskFrom(b, if kind.Plus128? then LOW_64 else LOW_32, kind.Width());
  }

  /** The register step is the engine's step. */
  lemma {:induction false} RegisterStepIs(kind: Kind, s: Pair)
    requires IsPair(kind, s)
    ensures Step(kind, Held(kind, s)) == Held(kind, RegisterStep(kind, s)) && IsPair(kind, RegisterStep(kind, s))
  {
    hide Holds, FromBits, Exclusive, ShiftedStep, PlusStep, StarStep, Step, IsNarrow, Cut32, Cut64;
    Holding(kind, s.first);
    Holding(kind, s.second);
    NarrowXor(kind, s.second, s.first);
    Holding(kind, Exclusive(s.second, s.first));
    ShiftedStepIs(kind, s);
    PlusStepIs(s);
    StarStepIs(s);
    var t := ShiftedStep(s, kind.Width(), kind.FirstRotation(), kind.Shift(), kind.SecondRotation());
    CutFrom(kind, t.first);
    CutFrom(kind, t.second);
  }

  // ----- Jumps --------------------------------------------------------------

  function PairXor(s: Pair, t: Pair): Pair {
    Pair(Exclusive(s.first, t.first), Exclusive(s.second, t.second))
  }

  /** `n` steps lead from one state and accumulator to another: the low bits of `p`
      select the states to accumulate, and every state passed has an even first word. */
  predicate Walk(kind: Kind, p: Register, n: nat, s: Pair, accumulated: Pair, s': Pair, accumulated': Pair)
    decreases n
  {
    if n == 0 then s == s' && accumulated == accumulated'
    else
      s.first & 1 == 0
      && Walk(kind, p >> 1, n - 1, if kind.Plus128? then PlusStep(s) else StarStep(s),
              if p & 1 == 1 then PairXor(accumulated, s) else accumulated, s', accumulated')
  }

  lemma WalkUnfolds(kind: Kind, p: Register, n: nat, s: Pair, accumulated: Pair, s': Pair, accumulated': Pair)
    requires n > 0 && Walk(kind, p, n, s, accumulated, s', accumulated')
    ensures !Low(s.first)
    ensures Walk(kind, Half(p), n - 1, RegisterStep(kind, s),
                 if Low(p) then PairXor(accumulated, s) else accumulated, s', accumulated')
  {
    hide PlusStep, StarStep, PairXor;
  }

  lemma PairXorIs(kind: Kind, s: Pair, t: Pair)
    requires IsPair(kind, s) && IsPair(kind, t)
    ensures Held(kind, PairXor(s, t)) == Add(Held(kind, s), Held(kind, t)) && IsPair(kind, PairXor(s, t))
  {
    hide FromBits, Xor, Exclusive, IsNarrow;
    NarrowXor(kind, s.first, t.first);
    NarrowXor(kind, s.second, t.second);
    XorFrom(s.first, t.first, kind.Width());
    XorFrom(s.second, t.second, kind.Width());
  }

  lemma FirstTerm(p: Register, n: nat, rest: Word)
    requires n > 0
    ensures var w := FromBits(p, n) + rest;
      w[0] == Low(p) && w[1..] == FromBits(Half(p), n - 1) + rest
  {
  }

  /** A walk evaluates the selected terms of a polynomial. */
  lemma {:induction false} WalkEvaluates(
    kind: Kind, p: Register, n: nat, s: Pair, accumulated: Pair, s': Pair, accumulated': Pair, rest: Word)
    requires Walk(kind, p, n, s, accumulated, s', accumulated')
    requires IsPair(kind, s) && IsPair(kind, accumulated)
    ensures IsPair(kind, s') && IsPair(kind, accumulated') && Held(kind, s') == Steps(kind, Held(kind, s), n)
    ensures Add(Held(kind, accumulated), Evaluate(kind, FromBits(p, n) + rest, Held(kind, s)))
            == Add(Held(kind, accumulated'), Evaluate(kind, rest, Held(kind, s')))
    decreases n
  {
    hide FromBits, Step, RegisterStep, Evaluate, Add, PairXor, Held, IsPair, Low, Half;
    if n == 0 {
      assert FromBits(p, 0) + rest == rest;
    } else {
      WalkUnfolds(kind, p, n, s, accumulated, s', accumulated');
      hide Walk;
      FirstTerm(p, n, rest);
      JumpBit(kind, Held(kind, accumulated), FromBits(p, n) + rest, Held(kind, s));
      RegisterStepIs(kind, s);
      PairXorIs(kind, accumulated, s);
      WalkEvaluates(kind, Half(p), n - 1, RegisterStep(kind, s),
                    if Low(p) then PairXor(accumulated, s) else accumulated, s', accumulated', rest);
    }
  }

  /** The states of a walk have an even first word. */
  lemma {:induction false} WalkIsEven(
    kind: Kind, p: Register, n: nat, s: Pair, accumulated: Pair, s': Pair, accumulated': Pair, i: nat)
    requires Walk(kind, p, n, s, accumulated, s', accumulated') && IsPair(kind, s) && i < n
    ensures !Steps(kind, Held(kind, s), i).first[0]
    decreases n
  {
    hide Step, RegisterStep, PairXor, IsPair, Low, Half;
    WalkUnfolds(kind, p, n, s, accumulated, s', accumulated');
    hide Walk;
    if i > 0 {
      RegisterStepIs(kind, s);
      WalkIsEven(kind, Half(p), n - 1, RegisterStep(kind, s),
                 if Low(p) then PairXor(accumulated, s) else accumulated, s', accumulated', i - 1);
    }
  }
}
