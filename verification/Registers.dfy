/**
 Words in wide registers: the bits of a register, and what xor, masks, shifts and
 rotations of registers do to them.
 */
module Registers {
  import opened Words

  type Register = bv128

  function Low(b: Register): bool {
    b & 1 == 1
  }

  function Half(b: Register): Register {
    b >> 1
  }

  function Twice(b: Register): Register {
    b << 1
  }

  function Exclusive(a: Register, b: Register): Register {
    a ^ b
  }

  function Masked(b: Register, m: Register): Register {
    b & m
  }

  /** The low `n` bits of a register, least significant first. */
  function FromBits(b: Register, n: nat): (w: Word)
    ensures |w| == n
    decreases n
  {
    if n == 0 then [] else [Low(b)] + FromBits(Half(b), n - 1)
  }

  // ----- Xor and masks ------------------------------------------------------

  lemma XorOfHalves(a: Register, b: Register)
    ensures Half(Exclusive(a, b)) == Exclusive(Half(a), Half(b))
  {
  }

  lemma XorOfLows(a: Register, b: Register)
    ensures Low(Exclusive(a, b)) == (Low(a) != Low(b))
  {
  }

  lemma MaskOfHalves(a: Register, m: Register)
    ensures Half(Masked(a, m)) == Masked(Half(a), Half(m))
  {
  }

  lemma MaskOfLows(a: Register, m: Register)
    ensures Low(Masked(a, m)) == (Low(a) && Low(m))
  {
  }

  lemma HalfOfTwice(a: Register)
    ensures Half(Twice(a)) == Masked(a, BELOW_TOP)
  {
  }

  lemma LowOfTwice(a: Register)
    ensures !Low(Twice(a))
  {
  }

  lemma XorCons(x: bool, a: Word, y: bool, b: Word)
    requires |a| == |b|
    ensures Xor([x] + a, [y] + b) == [x != y] + Xor(a, b)
  {
  }

  lemma {:induction false} XorFrom(a: Register, b: Register, n: nat)
    ensures FromBits(Exclusive(a, b), n) == Xor(FromBits(a, n), FromBits(b, n))
    decreases n
  {
    hide Low, Half, Exclusive;
    if n > 0 {
      XorFrom(Half(a), Half(b), n - 1);
      XorOfHalves(a, b);
      XorOfLows(a, b);
      XorCons(Low(a), FromBits(Half(a), n - 1), Low(b), FromBits(Half(b), n - 1));
    }
  }

  predicate LowOnes(m: Register, n: nat)
    decreases n
  {
    n == 0 || (Low(m) && LowOnes(Half(m), n - 1))
  }

  lemma {:induction false} MaskFrom(b: Register, m: Register, n: nat)
    requires LowOnes(m, n)
    ensures FromBits(Masked(b, m), n) == FromBits(b, n)
    decreases n
  {
    hide Low, Half, Masked;
    if n > 0 {
      MaskFrom(Half(b), Half(m), n - 1);
      MaskOfHalves(b, m);
      MaskOfLows(b, m);
    }
  }

  lemma {:induction false} LowOnesBelow(m: Register, n: nat, k: nat)
    requires LowOnes(m, n) && k <= n
    ensures LowOnes(m, k)
    decreases n
  {
    hide Low, Half;
    if k > 0 {
      LowOnesBelow(Half(m), n - 1, k - 1);
    }
  }

  /** Filling a register with ones from above reaches every bit below. */
  lemma {:induction false} OnesTo(m: Register, n: nat, k: nat)
    requires LowOnes(m, n) && LowOnes(Places(m, n), k)
    ensures LowOnes(m, n + k)
    decreases n
  {
    hide Low, Half;
    if n > 0 {
      PlacesHalf(m, n - 1);
      OnesTo(Half(m), n - 1, k);
    }
  }

  /** A register shifted right by any number of places. */
  function Places(b: Register, k: nat): Register
    decreases k
  {
    if k == 0 then b else Half(Places(b, k - 1))
  }

  lemma {:induction false} PlacesHalf(b: Register, k: nat)
    ensures Places(Half(b), k) == Places(b, k + 1)
    decreases k
  {
    hide Half;
    if k > 0 {
      PlacesHalf(b, k - 1);
    }
  }

  lemma {:induction false} PlacesAdd(b: Register, j: nat, k: nat)
    ensures Places(Places(b, j), k) == Places(b, j + k)
    decreases k
  {
    hide Half;
    if k > 0 {
      PlacesAdd(b, j, k - 1);
    }
  }

  lemma OnePlaces(b: Register)
    ensures Places(b, 1) == b >> 1
  {
    assert Places(b, 1) == Half(b);
  }

  lemma TwoPlaces(b: Register)
    ensures Places(b, 2) == b >> 2
  {
    hide Places;
    OnePlaces(b);
    OnePlaces(b >> 1);
    PlacesAdd(b, 1, 1);
  }

  lemma FourPlaces(b: Register)
    ensures Places(b, 4) == b >> 4
  {
    hide Places;
    TwoPlaces(b);
    TwoPlaces(b >> 2);
    PlacesAdd(b, 2, 2);
  }

  lemma EightPlaces(b: Register)
    ensures Places(b, 8) == b >> 8
  {
    hide Places;
    FourPlaces(b);
    FourPlaces(b >> 4);
    PlacesAdd(b, 4, 4);
  }

  lemma SixteenPlaces(b: Register)
    ensures Places(b, 16) == b >> 16
  {
    hide Places;
    EightPlaces(b);
    EightPlaces(b >> 8);
    PlacesAdd(b, 8, 8);
  }

  lemma ThirtyTwoPlaces(b: Register)
    ensures Places(b, 32) == b >> 32
  {
    hide Places;
    SixteenPlaces(b);
    SixteenPlaces(b >> 16);
    PlacesAdd(b, 16, 16);
  }

  lemma SixtyFourPlaces(b: Register)
    ensures Places(b, 64) == b >> 64
  {
    hide Places;
    ThirtyTwoPlaces(b);
    ThirtyTwoPlaces(b >> 32);
    PlacesAdd(b, 32, 32);
  }

  // ----- Shifts -------------------------------------------------------------

  lemma OnesByte(m: Register)
    requires m & 0xFF == 0xFF
    ensures LowOnes(m, 8)
  {
    EightOnes(m);
    hide Low, Half;
  }

  lemma EightOnes(m: Register)
    requires m & 0xFF == 0xFF
    ensures Low(m) && Low(Half(m)) && Low(Half(Half(m))) && Low(Half(Half(Half(m))))
    ensures Low(Half(Half(Half(Half(m))))) && Low(Half(Half(Half(Half(Half(m))))))
    ensures Low(Half(Half(Half(Half(Half(Half(m)))))))
    ensures Low(Half(Half(Half(Half(Half(Half(Half(m))))))))
  {
  }

  lemma SevenOnes()
    ensures LowOnes(0x7F, 7)
  {
    hide Places;
    assert LowOnes(0x7, 3);
    assert LowOnes(0x1F, 5);
  }

  /** One more byte of ones below. */
  lemma MoreOnes(m: Register, n: nat)
    requires m & 0xFF == 0xFF && LowOnes(m >> 8, n)
    ensures LowOnes(m, 8 + n)
  {
    OnesByte(m);
    EightPlaces(m);
    hide Places, LowOnes;
    OnesTo(m, 8, n);
  }

  const LOW_32: Register := 0xFFFF_FFFF
  const LOW_64: Register := 0xFFFF_FFFF_FFFF_FFFF

  lemma LowOnes32()
    ensures LowOnes(LOW_32, 32)
  {
    assert LowOnes(0, 0);
    hide LowOnes;
    MoreOnes(0xFF, 0);
    MoreOnes(0xFFFF, 8);
    MoreOnes(0xFF_FFFF, 16);
    MoreOnes(LOW_32, 24);
  }

  lemma LowOnes64()
    ensures LowOnes(LOW_64, 64)
  {
    LowOnes32();
    hide LowOnes;
    MoreOnes(0xFF_FFFF_FFFF, 32);
    MoreOnes(0xFFFF_FFFF_FFFF, 40);
    MoreOnes(0xFF_FFFF_FFFF_FFFF, 48);
    MoreOnes(LOW_64, 56);
  }

  /** All bits but the highest. */
  const BELOW_TOP: Register := 0x7FFF_FFFF_FFFF_FFFF_FFFF_FFFF_FFFF_FFFF

  lemma BelowTop()
    ensures LowOnes(BELOW_TOP, 127)
  {
    SevenOnes();
    hide LowOnes;
    MoreOnes(0x7FFF, 7);
    MoreOnes(0x7F_FFFF, 15);
    MoreOnes(0x7FFF_FFFF, 23);
    MoreOnes(0x7F_FFFF_FFFF, 31);
    MoreOnes(0x7FFF_FFFF_FFFF, 39);
    MoreOnes(0x7F_FFFF_FFFF_FFFF, 47);
    MoreOnes(0x7FFF_FFFF_FFFF_FFFF, 55);
    MoreOnes(0x7F_FFFF_FFFF_FFFF_FFFF, 63);
    MoreOnes(0x7FFF_FFFF_FFFF_FFFF_FFFF, 71);
    MoreOnes(0x7F_FFFF_FFFF_FFFF_FFFF_FFFF, 79);
    MoreOnes(0x7FFF_FFFF_FFFF_FFFF_FFFF_FFFF, 87);
    MoreOnes(0x7F_FFFF_FFFF_FFFF_FFFF_FFFF_FFFF, 95);
    MoreOnes(0x7FFF_FFFF_FFFF_FFFF_FFFF_FFFF_FFFF, 103);
    MoreOnes(0x7F_FFFF_FFFF_FFFF_FFFF_FFFF_FFFF_FFFF, 111);
    MoreOnes(BELOW_TOP, 119);
  }

  lemma {:induction false} PrefixFrom(b: Register, n: nat)
    ensures FromBits(b, n + 1)[..n] == FromBits(b, n)
    decreases n
  {
    hide Low, Half;
    if n > 0 {
      PrefixFrom(Half(b), n - 1);
      assert FromBits(b, n + 1)[..n] == [Low(b)] + FromBits(Half(b), n)[..n - 1];
    }
  }

  lemma {:induction false} LeftOnce(b: Register, n: nat)
    requires n <= 128
    ensures FromBits(Twice(b), n) == ShiftLeft(FromBits(b, n), 1)
  {
    hide Low, Half, Twice, Masked, LowOnes;
    if n > 0 {
      BelowTop();
      LowOnesBelow(BELOW_TOP, 127, n - 1);
      MaskFrom(b, BELOW_TOP, n - 1);
      HalfOfTwice(b);
      LowOfTwice(b);
      PrefixFrom(b, n - 1);
      assert FromBits(Twice(b), n) == [false] + FromBits(b, n)[..n - 1];
    }
  }

  /** A register shifted left by any number of places. */
  function Up(b: Register, k: nat): Register
    decreases k
  {
    if k == 0 then b else Twice(Up(b, k - 1))
  }

  lemma ShiftsAdd(w: Word, k: nat)
    ensures ShiftLeft(ShiftLeft(w, k), 1) == ShiftLeft(w, k + 1)
    ensures ShiftRight(ShiftRight(w, k), 1) == ShiftRight(w, k + 1)
    ensures ShiftLeft(w, 0) == w && ShiftRight(w, 0) == w
  {
  }

  lemma {:induction false} LeftFrom(b: Register, n: nat, k: nat)
    requires n <= 128
    ensures FromBits(Up(b, k), n) == ShiftLeft(FromBits(b, n), k)
    decreases k
  {
    hide Low, Half, Twice, FromBits, ShiftLeft, ShiftRight;
    ShiftsAdd(FromBits(b, n), if k > 0 then k - 1 else 0);
    if k > 0 {
      LeftFrom(b, n, k - 1);
      LeftOnce(Up(b, k - 1), n);
    }
  }

  /** The width of a register's contents. */
  ghost predicate Holds(b: Register, n: nat) {
    n > 0 && Places(b, n) == 0
  }

  lemma {:induction false} BitFrom(b: Register, n: nat, k: nat)
    requires k < n
    ensures FromBits(b, n)[k] == Low(Places(b, k))
    decreases k
  {
    hide Low, Half;
    if k > 0 {
      BitFrom(Half(b), n - 1, k - 1);
      PlacesHalf(b, k - 1);
    }
  }

  lemma ZeroStays()
    ensures !Low(0) && Half(0) == 0
  {
  }

  lemma {:induction false} RightOnce(b: Register, n: nat)
    requires Holds(b, n)
    ensures FromBits(Half(b), n) == ShiftRight(FromBits(b, n), 1) && Holds(Half(b), n)
  {
    hide Low, Half;
    ZeroStays();
    var w, s := FromBits(b, n), FromBits(Half(b), n);
    PlacesHalf(b, n - 1);
    PlacesHalf(b, n);
    hide FromBits;
    forall i | 0 <= i < n
      ensures s[i] == ShiftRight(w, 1)[i]
    {
      BitFrom(Half(b), n, i);
      PlacesHalf(b, i);
      if i + 1 < n {
        BitFrom(b, n, i + 1);
      }
    }
  }

  lemma {:induction false} RightFrom(b: Register, n: nat, k: nat)
    requires Holds(b, n)
    ensures FromBits(Places(b, k), n) == ShiftRight(FromBits(b, n), k) && Holds(Places(b, k), n)
    decreases k
  {
    hide Low, Half, FromBits, Holds, ShiftLeft, ShiftRight;
    ShiftsAdd(FromBits(b, n), if k > 0 then k - 1 else 0);
    if k > 0 {
      RightFrom(b, n, k - 1);
      RightOnce(Places(b, k - 1), n);
    }
  }

  // ----- Rotations ----------------------------------------------------------

  lemma RotationIsShifts(w: Word, k: nat)
    requires k <= |w|
    ensures RotateLeft(w, k) == Xor(ShiftLeft(w, k), ShiftRight(w, |w| - k))
  {
  }

  /** Rotating the contents of a register of the given width. */
  lemma RotateFrom(b: Register, n: nat, k: nat)
    requires Holds(b, n) && k <= n <= 128
    ensures FromBits(Exclusive(Up(b, k), Places(b, n - k)), n) == RotateLeft(FromBits(b, n), k)
  {
    hide FromBits, Holds, Exclusive, Up, Places, ShiftLeft, ShiftRight, RotateLeft, Xor;
    RotationIsShifts(FromBits(b, n), k);
    LeftFrom(b, n, k);
    RightFrom(b, n, n - k);
    XorFrom(Up(b, k), Places(b, n - k), n);
  }

  lemma {:induction false} UpAdds(b: Register, j: nat, k: nat)
    ensures Up(Up(b, j), k) == Up(b, j + k)
    decreases k
  {
    hide Twice;
    if k > 0 {
      UpAdds(b, j, k - 1);
    }
  }

  lemma OneUp(b: Register)
    ensures Up(b, 1) == b << 1
  {
    assert Up(b, 1) == Twice(b);
  }

  lemma TwoUp(b: Register)
    ensures Up(b, 2) == b << 2
  {
    hide Up;
    OneUp(b);
    OneUp(b << 1);
    UpAdds(b, 1, 1);
  }

  lemma FourUp(b: Register)
    ensures Up(b, 4) == b << 4
  {
    hide Up;
    TwoUp(b);
    TwoUp(b << 2);
    UpAdds(b, 2, 2);
  }

  lemma EightUp(b: Register)
    ensures Up(b, 8) == b << 8
  {
    hide Up;
    FourUp(b);
    FourUp(b << 4);
    UpAdds(b, 4, 4);
  }

  lemma SixteenUp(b: Register)
    ensures Up(b, 16) == b << 16
  {
    hide Up;
    EightUp(b);
    EightUp(b << 8);
    UpAdds(b, 8, 8);
  }

  lemma NineUp(b: Register)
    ensures Up(b, 9) == b << 9
  {
    hide Up;
    EightUp(b);
    OneUp(b << 8);
    UpAdds(b, 8, 1);
  }

  lemma ThirteenUp(b: Register)
    ensures Up(b, 13) == b << 13
  {
    hide Up;
    NineUp(b);
    FourUp(b << 9);
    UpAdds(b, 9, 4);
  }

  lemma TwentyFourUp(b: Register)
    ensures Up(b, 24) == b << 24
  {
    hide Up;
    SixteenUp(b);
    EightUp(b << 16);
    UpAdds(b, 16, 8);
  }

  lemma TwentySixUp(b: Register)
    ensures Up(b, 26) == b << 26
  {
    hide Up;
    TwentyFourUp(b);
    TwoUp(b << 24);
    UpAdds(b, 24, 2);
  }

  lemma ThirtyTwoUp(b: Register)
    ensures Up(b, 32) == b << 32
  {
    hide Up;
    SixteenUp(b);
    SixteenUp(b << 16);
    UpAdds(b, 16, 16);
  }

  lemma ThirtySixUp(b: Register)
    ensures Up(b, 36) == b << 36
  {
    hide Up;
    ThirtyTwoUp(b);
    FourUp(b << 32);
    UpAdds(b, 32, 4);
  }

  lemma ThirtySevenUp(b: Register)
    ensures Up(b, 37) == b << 37
  {
    hide Up;
    ThirtySixUp(b);
    OneUp(b << 36);
    UpAdds(b, 36, 1);
  }

  lemma SixPlaces(b: Register)
    ensures Places(b, 6) == b >> 6
  {
    hide Places;
    FourPlaces(b);
    TwoPlaces(b >> 4);
    PlacesAdd(b, 4, 2);
  }

  lemma EighteenPlaces(b: Register)
    ensures Places(b, 18) == b >> 18
  {
    hide Places;
    SixteenPlaces(b);
    TwoPlaces(b >> 16);
    PlacesAdd(b, 16, 2);
  }

  lemma NineteenPlaces(b: Register)
    ensures Places(b, 19) == b >> 19
  {
    hide Places;
    EighteenPlaces(b);
    OnePlaces(b >> 18);
    PlacesAdd(b, 18, 1);
  }

  lemma TwentySevenPlaces(b: Register)
    ensures Places(b, 27) == b >> 27
  {
    hide Places;
    NineteenPlaces(b);
    EightPlaces(b >> 19);
    PlacesAdd(b, 19, 8);
  }

  lemma FortyPlaces(b: Register)
    ensures Places(b, 40) == b >> 40
  {
    hide Places;
    ThirtyTwoPlaces(b);
    EightPlaces(b >> 32);
    PlacesAdd(b, 32, 8);
  }

  lemma TwentyEightPlaces(b: Register)
    ensures Places(b, 28) == b >> 28
  {
    hide Places;
    TwentySevenPlaces(b);
    OnePlaces(b >> 27);
    PlacesAdd(b, 27, 1);
  }

  lemma ThirtyPlaces(b: Register)
    ensures Places(b, 30) == b >> 30
  {
    hide Places;
    TwentyEightPlaces(b);
    TwoPlaces(b >> 28);
    PlacesAdd(b, 28, 2);
  }

  lemma ThirtyOnePlaces(b: Register)
    ensures Places(b, 31) == b >> 31
  {
    hide Places;
    ThirtyPlaces(b);
    OnePlaces(b >> 30);
    PlacesAdd(b, 30, 1);
  }

  // ----- Numbers ------------------------------------------------------------

  /** A hexadecimal digit as a number and as a register. */
  predicate SameDigit(d: nat, b: Register) {
    || (d == 0 && b == 0) || (d == 1 && b == 1) || (d == 2 && b == 2) || (d == 3 && b == 3)
    || (d == 4 && b == 4) || (d == 5 && b == 5) || (d == 6 && b == 6) || (d == 7 && b == 7)
    || (d == 8 && b == 8) || (d == 9 && b == 9) || (d == 10 && b == 10) || (d == 11 && b == 11)
    || (d == 12 && b == 12) || (d == 13 && b == 13) || (d == 14 && b == 14) || (d == 15 && b == 15)
  }

  /** The register holds the last `k` hexadecimal digits of the number. */
  predicate Spelled(n: nat, b: Register, k: nat)
    decreases k
  {
    k == 0 || (SameDigit(n % 16, b & 15) && Spelled(n / 16, b >> 4, k - 1))
  }

  lemma DigitBits(d: nat, b: Register)
    requires SameDigit(d, b)
    ensures Bits(d, 4) == FromBits(b, 4)
  {
    if d < 8 {
      LowDigitBits(d, b);
    } else {
      HighDigitBits(d, b);
    }
  }

  lemma LowDigitBits(d: nat, b: Register)
    requires d < 8 && SameDigit(d, b)
    ensures Bits(d, 4) == FromBits(b, 4)
  {
    if d == 0 {
    } else if d == 1 {
    } else if d == 2 {
    } else if d == 3 {
    } else if d == 4 {
    } else if d == 5 {
    } else if d == 6 {
    }
  }

  lemma HighDigitBits(d: nat, b: Register)
    requires 8 <= d && SameDigit(d, b)
    ensures Bits(d, 4) == FromBits(b, 4)
  {
    if d == 8 {
    } else if d == 9 {
    } else if d == 10 {
    } else if d == 11 {
    } else if d == 12 {
    } else if d == 13 {
    } else if d == 14 {
    }
  }

  /** Bits split at the lowest digit, in numbers and in registers. */
  lemma NumberSplits(n: nat, k: nat)
    ensures Bits(n, 4 + k) == Bits(n % 16, 4) + Bits(n / 16, k)
  {
    assert n / 2 / 2 / 2 / 2 == n / 16;
    UnfoldBits(n, 3 + k);
    UnfoldBits(n / 2, 2 + k);
    UnfoldBits(n / 2 / 2, 1 + k);
    UnfoldBits(n / 2 / 2 / 2, k);
    FourBits(n % 16, n);
    hide Bits;
  }

  lemma UnfoldBits(n: nat, k: nat)
    ensures Bits(n, k + 1) == [n % 2 == 1] + Bits(n / 2, k)
  {
  }

  lemma HalfParts(k: nat, d: nat)
    ensures (2 * k + d) % 2 == d % 2 && (2 * k + d) / 2 == k + d / 2
  {
  }

  lemma DigitParts(q: nat, d: nat)
    requires d < 16
    ensures (16 * q + d) % 2 == d % 2 && (16 * q + d) / 2 == 8 * q + d / 2
    ensures (8 * q + d / 2) % 2 == d / 2 % 2 && (8 * q + d / 2) / 2 == 4 * q + d / 4
    ensures (4 * q + d / 4) % 2 == d / 4 % 2 && (4 * q + d / 4) / 2 == 2 * q + d / 8
    ensures (2 * q + d / 8) % 2 == d / 8 % 2
  {
    HalfParts(8 * q, d);
    HalfParts(4 * q, d / 2);
    HalfParts(2 * q, d / 4);
    HalfParts(q, d / 8);
  }

  lemma FourBits(d: nat, n: nat)
    requires d == n % 16
    ensures Bits(d, 4) == [n % 2 == 1, n / 2 % 2 == 1, n / 2 / 2 % 2 == 1, n / 2 / 2 / 2 % 2 == 1]
  {
    hide Bits;
    UnfoldBits(d, 3);
    UnfoldBits(d / 2, 2);
    UnfoldBits(d / 4, 1);
    UnfoldBits(d / 8, 0);
    assert Bits(d / 16, 0) == [];
    DigitParts(n / 16, d);
    DigitParts(0, d);
    assert n == 16 * (n / 16) + d;
  }

  lemma {:induction false} RegisterSplits(b: Register, j: nat, k: nat)
    ensures FromBits(b, j + k) == FromBits(b, j) + FromBits(Places(b, j), k)
    decreases j
  {
    hide Low, Half;
    if j > 0 {
      RegisterSplits(Half(b), j - 1, k);
      PlacesHalf(b, j - 1);
    }
  }

  lemma DigitMask(b: Register)
    ensures FromBits(b & 15, 4) == FromBits(b, 4)
  {
    FourOnes();
    MaskFrom(b, 15, 4);
    assert Masked(b, 15) == b & 15;
    hide FromBits, LowOnes;
  }

  lemma FourOnes()
    ensures LowOnes(15, 4)
  {
    assert LowOnes(3, 2);
  }

  lemma {:induction false} SpelledBits(n: nat, b: Register, k: nat)
    requires Spelled(n, b, k)
    ensures Bits(n, 4 * k) == FromBits(b, 4 * k)
    decreases k
  {
    hide Bits, FromBits, SameDigit, Places;
    if k == 0 {
      NoBits(n, b);
    } else {
      SpelledBits(n / 16, b >> 4, k - 1);
      DigitBits(n % 16, b & 15);
      DigitMask(b);
      NumberSplits(n, 4 * (k - 1));
      RegisterSplits(b, 4, 4 * (k - 1));
      FourPlaces(b);
    }
  }

  lemma NoBits(n: nat, b: Register)
    ensures Bits(n, 0) == FromBits(b, 0)
  {
  }

  function DropDigits(n: nat, k: nat): nat
    decreases k
  {
    if k == 0 then n else DropDigits(n / 16, k - 1)
  }

  function DropPlaces(b: Register, k: nat): Register
    decreases k
  {
    if k == 0 then b else DropPlaces(b >> 4, k - 1)
  }

  lemma {:induction false} SpelledInParts(n: nat, b: Register, j: nat, k: nat)
    requires Spelled(n, b, j) && Spelled(DropDigits(n, j), DropPlaces(b, j), k)
    ensures Spelled(n, b, j + k)
    decreases j
  {
    hide SameDigit;
    if j > 0 {
      SpelledInParts(n / 16, b >> 4, j - 1, k);
    }
  }

  lemma DropEightDigits(n: nat)
    ensures DropDigits(n, 8) == n / 0x1_0000_0000
  {
    assert DropDigits(n, 8) == n / 16 / 16 / 16 / 16 / 16 / 16 / 16 / 16;
  }

  lemma DropEightPlaces(b: Register)
    ensures DropPlaces(b, 8) == b >> 32
  {
    assert DropPlaces(b, 4) == b >> 16;
    assert DropPlaces(b >> 16, 4) == b >> 32;
    assert DropPlaces(b, 8) == DropPlaces(b >> 4 >> 4 >> 4 >> 4, 4);
  }

  /** Sixteen digits in two halves. */
  lemma SixteenDigits(n: nat, b: Register)
    requires Spelled(n, b, 8) && Spelled(n / 0x1_0000_0000, b >> 32, 8)
    ensures Bits(n, 64) == FromBits(b, 64)
  {
    hide Spelled, Bits, FromBits, DropDigits, DropPlaces;
    DropEightDigits(n);
    DropEightPlaces(b);
    SpelledInParts(n, b, 8, 8);
    SpelledBits(n, b, 16);
  }
}
