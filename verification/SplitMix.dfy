/** The SplitMix64 generator that expands seeds. */
module SplitMix {
  import opened Words

  const WORD_RANGE: nat := 0x1_0000_0000_0000_0000
  const INCREMENT: nat := 0x9E3779B97F4A7C15
  const FIRST_MULTIPLIER: nat := 0xBF58476D1CE4E5B9
  const SECOND_MULTIPLIER: nat := 0x94D049BB133111EB

  /** The 64-bit word xored with itself shifted right. */
  function XorShift(x: nat, k: nat): nat {
    var w := Bits(x, 64);
    Value(Xor(w, ShiftRight(w, k)))
  }

  function Scramble(x: nat, k: nat, multiplier: nat): nat {
    XorShift(x, k) * multiplier % WORD_RANGE
  }

  function Mix(state: nat): nat {
    XorShift(Scramble(Scramble(state, 30, FIRST_MULTIPLIER), 27, SECOND_MULTIPLIER), 31)
  }

  function Advance(state: nat): nat {
    (state + INCREMENT) % WORD_RANGE
  }

  /** The word xored with itself shifted right once and twice as far. */
  function Unshift(x: nat, k: nat): nat {
    var w := Bits(x, 64);
    Value(Xor(Xor(w, ShiftRight(w, k)), ShiftRight(w, 2 * k)))
  }

  /** The state that a mix comes from. */
  function Unmix(output: nat): nat {
    var scrambled := Unshift(Unshift(output, 31) * 0x319642b2d24d8ec3 % WORD_RANGE, 27);
    Unshift(scrambled * 0x96de1b173f119089 % WORD_RANGE, 30)
  }

  lemma RangeIsPower()
    ensures Pow2(64) == WORD_RANGE
  {
    assert Pow2(8) == 256;
    hide Pow2;
    PowerSum(8, 8);
    PowerSum(16, 16);
    PowerSum(32, 32);
  }

  /** A third of the width and more can be shifted back. */
  lemma UnshiftWord(w: Word, k: nat)
    requires 3 * k >= |w|
    ensures var x := Xor(w, ShiftRight(w, k));
      Xor(Xor(x, ShiftRight(x, k)), ShiftRight(x, 2 * k)) == w
    ensures var y := Xor(Xor(w, ShiftRight(w, k)), ShiftRight(w, 2 * k));
      Xor(y, ShiftRight(y, k)) == w
  {
  }

  lemma UnshiftInverts(x: nat, k: nat)
    requires x < WORD_RANGE && 3 * k >= 64
    ensures XorShift(x, k) < WORD_RANGE && Unshift(XorShift(x, k), k) == x
    ensures Unshift(x, k) < WORD_RANGE && XorShift(Unshift(x, k), k) == x
  {
    RangeIsPower();
    hide Pow2;
    var w := Bits(x, 64);
    UnshiftWord(w, k);
    var a, b := Xor(w, ShiftRight(w, k)), Xor(Xor(w, ShiftRight(w, k)), ShiftRight(w, 2 * k));
    hide ShiftRight, Xor, Bits, Value;
    BitsOfValue(a);
    BitsOfValue(b);
    ValueOfBits(x, 64);
  }

  lemma ModuloOfSum(a: nat, n: nat, k: int, r: int)
    requires n >= 1 && a < n && r == a + n * k
    ensures r % n == a
  {
    var e := r / n - k;
    assert n * e == a - r % n && n * -e == -(n * e);
    if e >= 1 {
      MultipleBound(n, e);
    } else if e <= -1 {
      MultipleBound(n, -e);
    }
  }

  lemma ProductWithInverse(a: nat, m: nat, inverse: nat, n: nat, q: nat, c: nat)
    requires m * inverse == n * c + 1
    ensures (a * m - n * q) * inverse == a + n * (a * c - q * inverse)
  {
    assert (a * m) * inverse == a * (m * inverse);
    assert a * (n * c + 1) == n * (a * c) + a;
    assert (n * q) * inverse == n * (q * inverse);
    assert n * (a * c - q * inverse) == n * (a * c) - n * (q * inverse);
    assert (a * m - n * q) * inverse == (a * m) * inverse - (n * q) * inverse;
  }

  lemma DivisionSplits(p: nat, n: nat)
    requires n >= 1
    ensures p == n * (p / n) + p % n
  {
  }

  /** Multiplication by a number with an inverse can be undone. */
  lemma Unmultiply(a: nat, m: nat, inverse: nat, n: nat)
    requires n >= 1 && a < n && m * inverse % n == 1
    ensures (a * m % n) * inverse % n == a
  {
    var p := a * m;
    DivisionSplits(p, n);
    DivisionSplits(m * inverse, n);
    var q, c, r := p / n, m * inverse / n, p % n;
    ProductWithInverse(a, m, inverse, n, q, c);
    assert r == a * m - n * q;
    ModuloOfSum(a, n, a * c - q * inverse, r * inverse);
  }

  /** Multiplication by each multiplier and its inverse, in either order. */
  lemma MultipliersInvert(a: nat)
    requires a < WORD_RANGE
    ensures (a * FIRST_MULTIPLIER % WORD_RANGE) * 0x96de1b173f119089 % WORD_RANGE == a
    ensures (a * 0x96de1b173f119089 % WORD_RANGE) * FIRST_MULTIPLIER % WORD_RANGE == a
    ensures (a * SECOND_MULTIPLIER % WORD_RANGE) * 0x319642b2d24d8ec3 % WORD_RANGE == a
    ensures (a * 0x319642b2d24d8ec3 % WORD_RANGE) * SECOND_MULTIPLIER % WORD_RANGE == a
  {
    Unmultiply(a, FIRST_MULTIPLIER, 0x96de1b173f119089, WORD_RANGE);
    Unmultiply(a, 0x96de1b173f119089, FIRST_MULTIPLIER, WORD_RANGE);
    Unmultiply(a, SECOND_MULTIPLIER, 0x319642b2d24d8ec3, WORD_RANGE);
    Unmultiply(a, 0x319642b2d24d8ec3, SECOND_MULTIPLIER, WORD_RANGE);
  }

  /** The output mix has a two-sided inverse: it is a permutation of the 64-bit words. */
  lemma MixIsInvertible(x: nat)
    requires x < WORD_RANGE
    ensures Mix(x) < WORD_RANGE && Unmix(Mix(x)) == x
    ensures Unmix(x) < WORD_RANGE && Mix(Unmix(x)) == x
  {
    MixForth(x);
    MixBack(x);
  }

  lemma MixForth(x: nat)
    requires x < WORD_RANGE
    ensures Mix(x) < WORD_RANGE && Unmix(Mix(x)) == x
  {
    hide XorShift, Unshift;
    var a := XorShift(x, 30);
    var b := a * FIRST_MULTIPLIER % WORD_RANGE;
    var c := XorShift(b, 27);
    var d := c * SECOND_MULTIPLIER % WORD_RANGE;
    UnshiftInverts(x, 30);
    MultipliersInvert(a);
    UnshiftInverts(b, 27);
    MultipliersInvert(c);
    UnshiftInverts(d, 31);
  }

  lemma MixBack(x: nat)
    requires x < WORD_RANGE
    ensures Unmix(x) < WORD_RANGE && Mix(Unmix(x)) == x
  {
    hide XorShift, Unshift;
    var a := Unshift(x, 31);
    var b := a * 0x319642b2d24d8ec3 % WORD_RANGE;
    var c := Unshift(b, 27);
    var d := c * 0x96de1b173f119089 % WORD_RANGE;
    UnshiftInverts(x, 31);
    MultipliersInvert(a);
    UnshiftInverts(b, 27);
    MultipliersInvert(c);
    UnshiftInverts(d, 30);
  }

  /** The output mix is one-to-one. */
  lemma MixInjective(x: nat, y: nat)
    requires x < WORD_RANGE && y < WORD_RANGE
    ensures Mix(x) < WORD_RANGE
    ensures Mix(x) == Mix(y) ==> x == y
  {
    hide Mix, Unmix;
    MixIsInvertible(x);
    MixIsInvertible(y);
  }

  /** Two successive outputs differ. */
  lemma SuccessiveOutputsDiffer(state: nat)
    requires state < WORD_RANGE
    ensures Mix(Advance(state)) != Mix(Advance(Advance(state)))
  {
    hide Mix;
    MixInjective(Advance(state), Advance(Advance(state)));
  }

  class SplitMix64 {
    var state: nat

    constructor (seed: nat)
      ensures state == seed
    {
      state := seed;
    }

    method Next() returns (output: nat)
      modifies this
      ensures state == Advance(old(state)) && output == Mix(state)
    {
      state := (state + INCREMENT) % WORD_RANGE;
      var mixed := state;
      mixed := XorShift(mixed, 30) * FIRST_MULTIPLIER % WORD_RANGE;
      mixed := XorShift(mixed, 27) * SECOND_MULTIPLIER % WORD_RANGE;
      output := XorShift(mixed, 31);
    }
  }
}
