/** Published outputs of the engines. */
module KnownAnswers {
  import opened Words
  import opened SplitMix
  import opened Xoroshiro
  import opened Registers
  import opened RegisterSteps
  import opened Engines
  import Philox

  /** A number of sixteen hexadecimal digits in a register. */
  predicate Same(n: nat, b: Register) {
    n < WORD_RANGE && Spelled(n, b, 8) && Spelled(n / 0x1_0000_0000, b >> 32, 8)
  }

  lemma SameBits(n: nat, b: Register)
    requires Same(n, b)
    ensures Bits(n, 64) == FromBits(b, 64) && Value(FromBits(b, 64)) == n
  {
    hide Spelled, Bits, Value, FromBits, Pow2;
    SixteenDigits(n, b);
    RangeIsPower();
    ValueOfBits(n, 64);
  }

  // ----- SplitMix64 ---------------------------------------------------------

  lemma ShiftAnswer(x: nat, b: Register, k: nat, y: nat, c: Register)
    requires Same(x, b) && Same(y, c) && b <= LOW_64 && c == Exclusive(b, Places(b, k))
    ensures XorShift(x, k) == y
  {
    hide Same, Spelled, Bits, Value, FromBits, ShiftRight, Xor, Exclusive, Places;
    SameBits(x, b);
    SameBits(y, c);
    Holding(Plus128, b);
    RightFrom(b, 64, k);
    XorFrom(b, Places(b, k), 64);
  }

  lemma FirstDigits0()
    ensures Same(0x9E37_79B9_7F4A_7C15, 0x9E37_79B9_7F4A_7C15)
    ensures Same(0x9E37_79BB_0797_9AF0, 0x9E37_79BB_0797_9AF0)
  {
  }

  lemma FirstShift0()
    ensures XorShift(0x9E37_79B9_7F4A_7C15, 30) == 0x9E37_79BB_0797_9AF0
  {
    ThirtyPlaces(0x9E37_79B9_7F4A_7C15);
    FirstDigits0();
    hide XorShift, Places, Same;
    ShiftAnswer(0x9E37_79B9_7F4A_7C15, 0x9E37_79B9_7F4A_7C15, 30,
                0x9E37_79BB_0797_9AF0, 0x9E37_79BB_0797_9AF0);
  }

  lemma SecondDigits0()
    ensures Same(0x6F68_261B_57E7_A770, 0x6F68_261B_57E7_A770)
    ensures Same(0x6F68_2616_BAE3_641A, 0x6F68_2616_BAE3_641A)
  {
  }

  lemma SecondShift0()
    ensures XorShift(0x6F68_261B_57E7_A770, 27) == 0x6F68_2616_BAE3_641A
  {
    TwentySevenPlaces(0x6F68_261B_57E7_A770);
    SecondDigits0();
    hide XorShift, Places, Same;
    ShiftAnswer(0x6F68_261B_57E7_A770, 0x6F68_261B_57E7_A770, 27,
                0x6F68_2616_BAE3_641A, 0x6F68_2616_BAE3_641A);
  }

  lemma ThirdDigits0()
    ensures Same(0xE220_A838_BF5C_9DDE, 0xE220_A838_BF5C_9DDE)
    ensures Same(0xE220_A839_7B1D_CDAF, 0xE220_A839_7B1D_CDAF)
  {
  }

  lemma ThirdShift0()
    ensures XorShift(0xE220_A838_BF5C_9DDE, 31) == 0xE220_A839_7B1D_CDAF
  {
    ThirtyOnePlaces(0xE220_A838_BF5C_9DDE);
    ThirdDigits0();
    hide XorShift, Places, Same;
    ShiftAnswer(0xE220_A838_BF5C_9DDE, 0xE220_A838_BF5C_9DDE, 31,
                0xE220_A839_7B1D_CDAF, 0xE220_A839_7B1D_CDAF);
  }

  lemma MixAnswer0()
    ensures Mix(0x9E37_79B9_7F4A_7C15) == 0xE220_A839_7B1D_CDAF
  {
    hide XorShift;
    FirstShift0();
    SecondShift0();
    ThirdShift0();
  }

  lemma FirstDigits1()
    ensures Same(0x3C6E_F372_FE94_F82A, 0x3C6E_F372_FE94_F82A)
    ensures Same(0x3C6E_F372_0F2F_35E1, 0x3C6E_F372_0F2F_35E1)
  {
  }

  lemma FirstShift1()
    ensures XorShift(0x3C6E_F372_FE94_F82A, 30) == 0x3C6E_F372_0F2F_35E1
  {
    ThirtyPlaces(0x3C6E_F372_FE94_F82A);
    FirstDigits1();
    hide XorShift, Places, Same;
    ShiftAnswer(0x3C6E_F372_FE94_F82A, 0x3C6E_F372_FE94_F82A, 30,
                0x3C6E_F372_0F2F_35E1, 0x3C6E_F372_0F2F_35E1);
  }

  lemma SecondDigits1()
    ensures Same(0x2A94_FCBF_CCB4_3499, 0x2A94_FCBF_CCB4_3499)
    ensures Same(0x2A94_FCBA_9E2B_A360, 0x2A94_FCBA_9E2B_A360)
  {
  }

  lemma SecondShift1()
    ensures XorShift(0x2A94_FCBF_CCB4_3499, 27) == 0x2A94_FCBA_9E2B_A360
  {
    TwentySevenPlaces(0x2A94_FCBF_CCB4_3499);
    SecondDigits1();
    hide XorShift, Places, Same;
    ShiftAnswer(0x2A94_FCBF_CCB4_3499, 0x2A94_FCBF_CCB4_3499, 27,
                0x2A94_FCBA_9E2B_A360, 0x2A94_FCBA_9E2B_A360);
  }

  lemma ThirdDigits1()
    ensures Same(0x6E78_9E6A_7D48_5920, 0x6E78_9E6A_7D48_5920)
    ensures Same(0x6E78_9E6A_A1B9_65F4, 0x6E78_9E6A_A1B9_65F4)
  {
  }

  lemma ThirdShift1()
    ensures XorShift(0x6E78_9E6A_7D48_5920, 31) == 0x6E78_9E6A_A1B9_65F4
  {
    ThirtyOnePlaces(0x6E78_9E6A_7D48_5920);
    ThirdDigits1();
    hide XorShift, Places, Same;
    ShiftAnswer(0x6E78_9E6A_7D48_5920, 0x6E78_9E6A_7D48_5920, 31,
                0x6E78_9E6A_A1B9_65F4, 0x6E78_9E6A_A1B9_65F4);
  }

  lemma MixAnswer1()
    ensures Mix(0x3C6E_F372_FE94_F82A) == 0x6E78_9E6A_A1B9_65F4
  {
    hide XorShift;
    FirstShift1();
    SecondShift1();
    ThirdShift1();
  }

  /** The first outputs from seed 0. */
  lemma SeedZero()
    ensures Mix(Advance(0)) == 0xE220_A839_7B1D_CDAF && Mix(Advance(Advance(0))) == 0x6E78_9E6A_A1B9_65F4
    ensures Seeded(Plus128, 0) == State(Bits(0xE220_A839_7B1D_CDAF, 64), Bits(0x6E78_9E6A_A1B9_65F4, 64))
  {
    hide Mix, Bits;
    MixAnswer0();
    MixAnswer1();
    assert Advance(0) == 0x9E37_79B9_7F4A_7C15 && Advance(Advance(0)) == 0x3C6E_F372_FE94_F82A;
  }

  // ----- Xoroshiro ----------------------------------------------------------

  /** Two numbers in a pair of registers. */
  predicate HoldsNumbers(kind: Kind, s: Pair, first: nat, second: nat) {
    if kind.Plus128? then Same(first, s.first) && Same(second, s.second)
    else
      && first < 0x1_0000_0000 && second < 0x1_0000_0000
      && Spelled(first, s.first, 8) && Spelled(second, s.second, 8)
  }

  lemma HeldValues(kind: Kind, s: Pair, first: nat, second: nat)
    requires HoldsNumbers(kind, s, first, second)
    ensures Value(Held(kind, s).first) == first && Value(Held(kind, s).second) == second
  {
    hide Same, Spelled, Bits, FromBits, Value, Pow2;
    if kind.Plus128? {
      SameBits(first, s.first);
      SameBits(second, s.second);
    } else {
      SpelledBits(first, s.first, 8);
      SpelledBits(second, s.second, 8);
      Philox.HalfRangeIsPower();
      ValueOfBits(first, 32);
      ValueOfBits(second, 32);
    }
  }

  /** One output in front of those of the next state. */
  lemma StreamAnswer(kind: Kind, s: Pair, first: nat, second: nat, next: Pair, output: nat, rest: seq<nat>)
    requires IsPair(kind, s) && HoldsNumbers(kind, s, first, second) && RegisterStep(kind, s) == next
    requires output == if kind.Plus128? then (first + second) % WORD_RANGE else first * 0x9E37_79BB % 0x1_0000_0000
    requires Stream(kind, Held(kind, next), |rest|) == rest
    ensures Stream(kind, Held(kind, s), |rest| + 1) == [output] + rest
  {
    hide HoldsNumbers, Held, IsPair, Step, RegisterStep, Value, Output;
    HeldValues(kind, s, first, second);
    RegisterStepIs(kind, s);
    assert Output(kind, Held(kind, s)) == output by {
      OutputIs(kind, Held(kind, s));
    }
  }

  lemma OutputIs(kind: Kind, s: State)
    ensures Output(kind, s)
            == if kind.Plus128? then (Value(s.first) + Value(s.second)) % WORD_RANGE
               else Value(s.first) * 0x9E37_79BB % 0x1_0000_0000
  {
  }

  lemma PlusAnswer2()
    ensures Stream(Plus128, Held(Plus128, Pair(0x61_0263_0200_0003, 0x2060_0060_0000_0C00)), 1)
            == [0x20C1_02C3_0200_0C03]
  {
    hide Held, Stream;
    NoStream(Plus128, Held(Plus128, Pair(0x4100_0003_0D03_6D01, 0x4001_8064_0020_4060)));
    StreamAnswer(Plus128, Pair(0x61_0263_0200_0003, 0x2060_0060_0000_0C00),
                 0x61_0263_0200_0003, 0x2060_0060_0000_0C00,
                 Pair(0x4100_0003_0D03_6D01, 0x4001_8064_0020_4060),
                 0x20C1_02C3_0200_0C03, []);
  }

  lemma PlusAnswer1()
    ensures Stream(Plus128, Held(Plus128, Pair(0x103_0003, 0x60_0000_0000)), 2)
            == [0x60_0103_0003, 0x20C1_02C3_0200_0C03]
  {
    hide Held, Stream;
    PlusAnswer2();
    StreamAnswer(Plus128, Pair(0x103_0003, 0x60_0000_0000),
                 0x103_0003, 0x60_0000_0000,
                 Pair(0x61_0263_0200_0003, 0x2060_0060_0000_0C00),
                 0x60_0103_0003, [0x20C1_02C3_0200_0C03]);
  }

  lemma PlusAnswer0()
    ensures Stream(Plus128, Held(Plus128, Pair(0x1, 0x2)), 3)
            == [0x3, 0x60_0103_0003, 0x20C1_02C3_0200_0C03]
  {
    hide Held, Stream;
    PlusAnswer1();
    StreamAnswer(Plus128, Pair(0x1, 0x2),
                 0x1, 0x2,
                 Pair(0x103_0003, 0x60_0000_0000),
                 0x3, [0x60_0103_0003, 0x20C1_02C3_0200_0C03]);
  }

  lemma StarAnswer2()
    ensures Stream(Star64, Held(Star64, Pair(0x8DC_601B, 0xCC0_6080)), 1)
            == [0xF233_F6B9]
  {
    hide Held, Stream;
    NoStream(Star64, Held(Star64, Pair(0x503E_471B, 0x8013_6083)));
    StreamAnswer(Star64, Pair(0x8DC_601B, 0xCC0_6080),
                 0x8DC_601B, 0xCC0_6080,
                 Pair(0x503E_471B, 0x8013_6083),
                 0xF233_F6B9, []);
  }

  lemma StarAnswer1()
    ensures Stream(Star64, Held(Star64, Pair(0x400_0603, 0x6000)), 2)
            == [0x1380_CF31, 0xF233_F6B9]
  {
    hide Held, Stream;
    StarAnswer2();
    StreamAnswer(Star64, Pair(0x400_0603, 0x6000),
                 0x400_0603, 0x6000,
                 Pair(0x8DC_601B, 0xCC0_6080),
                 0x1380_CF31, [0xF233_F6B9]);
  }

  lemma StarAnswer0()
    ensures Stream(Star64, Held(Star64, Pair(0x1, 0x2)), 3)
            == [0x9E37_79BB, 0x1380_CF31, 0xF233_F6B9]
  {
    hide Held, Stream;
    StarAnswer1();
    StreamAnswer(Star64, Pair(0x1, 0x2),
                 0x1, 0x2,
                 Pair(0x400_0603, 0x6000),
                 0x9E37_79BB, [0x1380_CF31, 0xF233_F6B9]);
  }

  /** The first outputs from the state of 1 and 2. */
  lemma StreamsFromOneAndTwo()
    ensures Stream(Plus128, State(Bits(1, 64), Bits(2, 64)), 3) == [3, 0x60_0103_0003, 0x20C1_02C3_0200_0C03]
    ensures Stream(Star64, State(Bits(1, 32), Bits(2, 32)), 3) == [0x9E37_79BB, 0x1380_CF31, 0xF233_F6B9]
  {
    hide Stream, Bits, FromBits;
    assert Same(1, 1) && Same(2, 2);
    SameBits(1, 1);
    SameBits(2, 2);
    SpelledBits(1, 1, 8);
    SpelledBits(2, 2, 8);
    PlusAnswer0();
    StarAnswer0();
  }

  lemma NoStream(kind: Kind, s: State)
    requires IsState(kind, s)
    ensures Stream(kind, s, 0) == []
  {
  }
}
