/** The two xoroshiro engines: seeding, stepping, jumping and restoring an exported state. */
module Engines {
  import opened Results
  import opened Words
  import opened Xoroshiro
  import opened SplitMix
  import opened JumpDistances

  const VERSION_1: nat := 1

  datatype Snapshot = Snapshot(version: nat, first: nat, second: nat)

  function Seeded(kind: Kind, seed: nat): (s: State)
    ensures IsState(kind, s)
  {
    State(Bits(Mix(Advance(seed)), kind.Width()), Bits(Mix(Advance(Advance(seed))), kind.Width()))
  }

  /** What a step outputs. */
  function Output(kind: Kind, s: State): nat {
    if kind.Plus128? then (Value(s.first) + Value(s.second)) % WORD_RANGE
    else Value(s.first) * 0x9E3779BB % 0x1_0000_0000
  }

  /** The first `n` outputs from a state. */
  function Stream(kind: Kind, s: State, n: nat): seq<nat>
    requires IsState(kind, s)
    decreases n
  {
    if n == 0 then [] else [Output(kind, s)] + Stream(kind, Step(kind, s), n - 1)
  }

  /** The state an exported snapshot restores, if it is accepted. */
  function Restored(kind: Kind, snapshot: Snapshot): Result<State> {
    if snapshot.version != VERSION_1 then Failure(Version)
    else if snapshot.first == 0 && snapshot.second == 0 then Failure(InvalidState)
    else Success(State(Bits(snapshot.first, kind.Width()), Bits(snapshot.second, kind.Width())))
  }

  function Exported(s: State): Snapshot {
    Snapshot(VERSION_1, Value(s.first), Value(s.second))
  }

  // ----- Seeding and restoring ----------------------------------------------

  /** Every seed gives the 128-bit engine a non-zero state. */
  lemma SeedsAreNonzero(seed: nat)
    requires seed < WORD_RANGE
    ensures Seeded(Plus128, seed) != ZeroState(Plus128)
  {
    hide Mix;
    SuccessiveOutputsDiffer(seed);
    MixInjective(Advance(seed), Advance(seed));
    MixInjective(Advance(Advance(seed)), Advance(Advance(seed)));
    RangeIsPower();
    hide Pow2;
    var a, b := Mix(Advance(seed)), Mix(Advance(Advance(seed)));
    hide Advance, Bits, Value;
    ValueOfBits(a, 64);
    ValueOfBits(b, 64);
  }

  lemma ExportRestores(kind: Kind, s: State)
    requires IsState(kind, s) && s != ZeroState(kind)
    ensures Restored(kind, Exported(s)) == Success(s)
  {
    ZeroValue(s.first);
    ZeroValue(s.second);
    BitsOfValue(s.first);
    BitsOfValue(s.second);
  }

  /** Along a run of steps from a seed, restoring an export always succeeds and
      replays the same stream. */
  lemma {:induction false} RunsRestore(seed: nat, n: nat, count: nat)
    requires seed < WORD_RANGE
    ensures var s := Steps(Plus128, Seeded(Plus128, seed), n);
      var r := Restored(Plus128, Exported(s));
      r.Success? && Stream(Plus128, r.value, count) == Stream(Plus128, s, count)
  {
    hide Seeded, Restored, Exported;
    SeedsAreNonzero(seed);
    StepsStayNonzero(Plus128, Seeded(Plus128, seed), n);
    ExportRestores(Plus128, Steps(Plus128, Seeded(Plus128, seed), n));
  }

  // ----- Jumping ------------------------------------------------------------

  /** Both jumps are linear and commute with each other and with any number of steps. */
  lemma JumpsCommute(kind: Kind, s: State, t: State, n: nat)
    requires IsState(kind, s) && IsState(kind, t)
    ensures var jump, long :=
      Coefficients(kind.JumpPolynomial(), kind.Width()), Coefficients(kind.LongJumpPolynomial(), kind.Width());
      && Evaluate(kind, jump, Evaluate(kind, long, s)) == Evaluate(kind, long, Evaluate(kind, jump, s))
      && Evaluate(kind, jump, Steps(kind, s, n)) == Steps(kind, Evaluate(kind, jump, s), n)
      && Evaluate(kind, long, Steps(kind, s, n)) == Steps(kind, Evaluate(kind, long, s), n)
      && Evaluate(kind, jump, Add(s, t)) == Add(Evaluate(kind, jump, s), Evaluate(kind, jump, t))
      && Evaluate(kind, long, Add(s, t)) == Add(Evaluate(kind, long, s), Evaluate(kind, long, t))
  {
    hide Evaluate, Steps, Add;
    var jump := Coefficients(kind.JumpPolynomial(), kind.Width());
    var long := Coefficients(kind.LongJumpPolynomial(), kind.Width());
    EvaluationsCommute(kind, jump, long, s);
    EvaluateCommutesWithSteps(kind, jump, s, n);
    EvaluateCommutesWithSteps(kind, long, s, n);
    EvaluateIsLinear(kind, jump, s, t);
    EvaluateIsLinear(kind, long, s, t);
  }

  // ----- The engine ---------------------------------------------------------

  class Engine {
    const kind: Kind
    var first: Word
    var second: Word

    ghost predicate Valid()
      reads this
    {
      IsState(kind, Current())
    }

    ghost function Current(): State
      reads this
    {
      State(first, second)
    }

    constructor (kind: Kind, seed: nat)
      requires seed < WORD_RANGE
      ensures Valid() && this.kind == kind && Current() == Seeded(kind, seed)
    {
      this.kind := kind;
      var expansion := new SplitMix64(seed);
      var a := expansion.Next();
      var b := expansion.Next();
      first := Bits(a, kind.Width());
      second := Bits(b, kind.Width());
    }

    method Next() returns (output: nat)
      requires Valid()
      modifies this
      ensures Valid() && Current() == Step(kind, old(Current())) && output == Output(kind, old(Current()))
    {
      var oldFirst := first;
      var mixed := second;
      output := if kind.Plus128? then (Value(oldFirst) + Value(mixed)) % WORD_RANGE
                else Value(oldFirst) * 0x9E3779BB % 0x1_0000_0000;
      mixed := Xor(mixed, oldFirst);
      first := Xor(Xor(RotateLeft(oldFirst, kind.FirstRotation()), mixed), ShiftLeft(mixed, kind.Shift()));
      second := RotateLeft(mixed, kind.SecondRotation());
    }

    /** Replaces the state by a polynomial in the step applied to it. */
    method JumpBy(polynomial: seq<nat>)
      requires Valid()
      modifies this
      ensures Valid() && Current() == Evaluate(kind, Coefficients(polynomial, kind.Width()), old(Current()))
    {
      hide Evaluate, Add, Step;
      ghost var total := Evaluate(kind, Coefficients(polynomial, kind.Width()), Current());
      var accumulated := ZeroState(kind);
      NothingAccumulated(kind, total);
      for index := 0 to |polynomial|
        invariant Valid() && IsState(kind, accumulated)
        invariant Add(accumulated, Evaluate(kind, Coefficients(polynomial[index..], kind.Width()), Current())) == total
      {
        accumulated :=
          JumpWord(polynomial[index], accumulated, Coefficients(polynomial[index + 1..], kind.Width()), total);
      }
      NothingAccumulated(kind, accumulated);
      assert Evaluate(kind, [], Current()) == ZeroState(kind) by {
        EvaluateNothing(kind, Current());
      }
      first := accumulated.first;
      second := accumulated.second;
    }

    /** The terms of one word of the polynomial. */
    method JumpWord(word: nat, start: State, ghost rest: Word, ghost total: State) returns (accumulated: State)
      requires Valid() && IsState(kind, start)
      requires Add(start, Evaluate(kind, Bits(word, kind.Width()) + rest, Current())) == total
      modifies this
      ensures Valid() && IsState(kind, accumulated)
      ensures Add(accumulated, Evaluate(kind, rest, Current())) == total
    {
      hide Evaluate, Step, Xor;
      accumulated := start;
      var bits := Bits(word, kind.Width());
      assert bits[0..] + rest == bits + rest;
      for bit := 0 to kind.Width()
        invariant Valid() && IsState(kind, accumulated)
        invariant Add(accumulated, Evaluate(kind, bits[bit..] + rest, Current())) == total
      {
        ghost var p := bits[bit..] + rest;
        assert p[0] == bits[bit] && p[1..] == bits[bit + 1..] + rest;
        JumpBit(kind, accumulated, p, Current());
        if bits[bit] {
          accumulated := State(Xor(accumulated.first, first), Xor(accumulated.second, second));
        }
        var _ := Next();
      }
      assert bits[kind.Width()..] + rest == rest;
    }

    method Jump()
      requires Valid()
      modifies this
      ensures Valid()
      ensures Current() == Steps(kind, old(Current()), Pow2(kind.Width()))
    {
      JumpIsSteps(kind, Current());
      JumpBy(kind.JumpPolynomial());
    }

    method LongJump()
      requires Valid()
      modifies this
      ensures Valid()
      ensures Current() == Steps(kind, old(Current()), Pow2(LongDistance(kind)))
    {
      LongJumpIsSteps(kind, Current());
      JumpBy(kind.LongJumpPolynomial());
    }

    method ExportState() returns (snapshot: Snapshot)
      requires Valid()
      ensures snapshot == Exported(Current())
    {
      snapshot := Snapshot(VERSION_1, Value(first), Value(second));
    }

    /** Accepts exactly the snapshots of this version that are not all zero. */
    method RestoreState(snapshot: Snapshot) returns (status: Status)
      requires Valid() && snapshot.first < Pow2(kind.Width()) && snapshot.second < Pow2(kind.Width())
      modifies this
      ensures Valid()
      ensures Restored(kind, snapshot).Success? ==> status == Ok && Current() == Restored(kind, snapshot).value
      ensures Restored(kind, snapshot).Failure? ==>
        status == Failed(Restored(kind, snapshot).error) && Current() == old(Current())
    {
      if snapshot.version != VERSION_1 {
        return Failed(Version);
      }
      if snapshot.first == 0 && snapshot.second == 0 {
        return Failed(InvalidState);
      }
      first := Bits(snapshot.first, kind.Width());
      second := Bits(snapshot.second, kind.Width());
      return Ok;
    }
  }

  lemma EvaluateNothing(kind: Kind, s: State)
    requires IsState(kind, s)
    ensures Evaluate(kind, [], s) == ZeroState(kind)
  {
  }
}
