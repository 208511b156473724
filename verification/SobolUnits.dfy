/** Sobol words as coordinates in the unit interval, in single or double precision. */
module SobolUnits {
  import opened Words
  import opened Sobol
  import opened SobolNets

  datatype Precision = Single | Double {
    /** The bits of a word that a coordinate keeps. */
    function Kept(): (bits: nat)
      ensures 24 <= bits <= 53
    {
      if Single? then 24 else 53
    }
  }

  /** The kept high bits as a fraction; both the conversion and the scaling are exact in floating point. */
  function Unit(word: Word, precision: Precision): real
    requires |word| == WORD_COUNT
  {
    Value(ShiftRight(word, WORD_COUNT - precision.Kept())) as real / Pow2(precision.Kept()) as real
  }

  lemma {:induction false} ShiftedDown(word: Word, k: nat)
    requires k <= |word|
    ensures Value(ShiftRight(word, k)) == Value(word) / Pow2(k)
  {
    HighValue(word, k);
    assert ShiftRight(word, k) == word[k..] + Zeros(k);
    TrailingZerosKeepValue(word[k..], k);
  }

  lemma {:induction false} TrailingZerosKeepValue(w: Word, k: nat)
    ensures Value(w + Zeros(k)) == Value(w)
  {
    if |w| == 0 {
      assert w + Zeros(k) == Zeros(k);
      ZeroValue(Zeros(k));
    } else {
      assert (w + Zeros(k))[1..] == w[1..] + Zeros(k);
      TrailingZerosKeepValue(w[1..], k);
    }
  }

  lemma Division(n: nat, p: nat)
    requires p >= 1
    ensures n == p * (n / p) + n % p && n % p < p
  {
  }

  lemma NestedParts(n: nat, p: nat, q: nat, m: nat, r: nat, k: nat, s: nat)
    requires n == p * m + r && r < p && m == q * k + s && s < q
    ensures n == (p * q) * k + (p * s + r) && p * s + r < p * q
  {
    ProductOfSum(p, q, k, s);
    DigitsBelow(p, q, r, s);
  }

  lemma ProductOfSum(p: nat, q: nat, k: nat, s: nat)
    ensures p * (q * k + s) == (p * q) * k + p * s
  {
    assert p * (q * k) == (p * q) * k;
  }

  lemma DigitsBelow(p: nat, q: nat, r: nat, s: nat)
    requires r < p && s < q
    ensures p * s + r < p * q
  {
    NonNegativeMultiple(p, q - 1 - s);
    assert p * (q - 1 - s) == p * q - p - p * s;
  }

  lemma NonNegativeMultiple(p: nat, d: nat)
    ensures p * d >= 0
  {
  }

  /** Dividing in two steps. */
  lemma {:induction false} NestedQuotient(n: nat, p: nat, q: nat)
    requires p >= 1 && q >= 1
    ensures p * q >= 1 && (n / p) / q == n / (p * q)
  {
    var m := n / p;
    var k := m / q;
    Division(n, p);
    Division(m, q);
    var r, s := n % p, m % q;
    NestedParts(n, p, q, m, r, k, s);
    QuotientIs(n, p * q, k, p * s + r);
  }

  /** The interval of length 1/b that starts at a/b. */
  predicate InInterval(x: real, a: nat, b: nat)
    requires b >= 1
  {
    a as real / b as real <= x < (a + 1) as real / b as real
  }

  /** A fraction lies in an interval exactly when its numerator has that quotient. */
  lemma {:induction false} FractionInInterval(n: nat, a: nat, b: nat, c: nat)
    requires b >= 1 && c >= 1
    ensures InInterval(n as real / (b * c) as real, a, b) <==> n / c == a
  {
    var m := n / c;
    assert n == c * m + n % c;
    ScaleFraction(n, a, b, c);
    ScaleFraction(n, a + 1, b, c);
    QuotientBounds(n, a, c);
  }

  lemma QuotientBounds(n: nat, a: nat, c: nat)
    requires c >= 1
    ensures n / c == a <==> a * c <= n < (a + 1) * c
  {
    if a * c <= n < (a + 1) * c {
      QuotientIs(n, c, a, n - a * c);
    }
    assert n == c * (n / c) + n % c;
  }

  /** Comparing fractions with denominators b and bc. */
  lemma {:induction false} ScaleFraction(n: nat, a: nat, b: nat, c: nat)
    requires b >= 1 && c >= 1
    ensures a as real / b as real <= n as real / (b * c) as real <==> a * c <= n
  {
    var d := (b * c) as real;
    var x, y := a as real / b as real, n as real / d;
    assert d >= 1.0 by {
      assert b * c >= 1;
    }
    assert x * b as real == a as real && y * d == n as real;
    assert d == b as real * c as real;
    assert x * d == (x * b as real) * c as real == (a * c) as real;
    ScaledOrder(x, y, d);
  }

  lemma ScaledOrder(x: real, y: real, d: real)
    requires d > 0.0
    ensures x <= y <==> x * d <= y * d
  {
  }

  /** A coordinate lies in the `prefix`-th of 2^k equal intervals exactly when
      the word's top `k` bits are `prefix`, as far as the precision reaches. */
  lemma {:induction false} UnitInInterval(word: Word, precision: Precision, k: nat, prefix: nat)
    requires |word| == WORD_COUNT && k <= precision.Kept()
    ensures InInterval(Unit(word, precision), prefix, Pow2(k)) <==> Value(word) / Pow2(WORD_COUNT - k) == prefix
  {
    hide Pow2, Value;
    var bits := precision.Kept();
    var n := Value(word) / Pow2(WORD_COUNT - bits);
    ShiftedDown(word, WORD_COUNT - bits);
    PowerSum(k, bits - k);
    PowerSum(WORD_COUNT - bits, bits - k);
    NestedQuotient(Value(word), Pow2(WORD_COUNT - bits), Pow2(bits - k));
    FractionInInterval(n, prefix, Pow2(k), Pow2(bits - k));
  }

  lemma PowerOfZero()
    ensures Pow2(0) == 1
  {
  }

  /** Every coordinate lies in the half-open unit interval. */
  lemma UnitIsUnit(word: Word, precision: Precision)
    requires |word| == WORD_COUNT
    ensures 0.0 <= Unit(word, precision) < 1.0
  {
    hide Value, Pow2, Unit;
    BitsOfValue(word);
    WholeRange(Value(word));
    PowerOfZero();
    UnitInInterval(word, precision, 0, 0);
  }

  /** Index `index` lies in the block and its coordinate in the `prefix`-th of 2^k equal intervals. */
  ghost predicate Falls(words: seq<Word>, precision: Precision, k: nat, block: nat, prefix: nat, index: nat)
    requires Sized(words) && k <= WORD_COUNT
  {
    && index < Pow2(WORD_COUNT) && index / Pow2(k) == block
    && InInterval(Unit(PointWord(words, index), precision), prefix, Pow2(k))
  }

  /** Among any aligned block of 2^k indices, exactly one coordinate falls into
      each of the 2^k equal intervals of the unit interval. */
  lemma {:induction false} OnePointPerInterval(words: seq<Word>, precision: Precision, k: nat, block: nat, prefix: nat)
    returns (index: nat)
    requires Directions(words, WORD_COUNT) && k <= precision.Kept()
    requires block < Pow2(WORD_COUNT - k) && prefix < Pow2(k)
    ensures Falls(words, precision, k, block, prefix, index)
    ensures forall other :: Falls(words, precision, k, block, prefix, other) ==> other == index
  {
    assert Sized(words);
    hide Pow2, Value, PointWord, Directions, Unit, InInterval;
    index := HitsAtLeastOnce(words, k, block, prefix);
    UnitInInterval(PointWord(words, index), precision, k, prefix);
    forall other | Falls(words, precision, k, block, prefix, other)
      ensures other == index
    {
      UnitInInterval(PointWord(words, other), precision, k, prefix);
      HitsAtMostOnce(words, k, block, prefix, other, index);
    }
  }

  /** The steps of single and of double precision in the unit interval. */
  lemma KeptPowers()
    ensures Pow2(24) == 0x100_0000 && Pow2(53) == 0x20_0000_0000_0000
  {
    assert Pow2(5) == 32 && Pow2(8) == 256;
    hide Pow2;
    PowerSum(8, 8);
    PowerSum(8, 16);
    PowerSum(24, 24);
    PowerSum(5, 48);
  }

  /** A multiple of 2^-24 below one in single precision, and of 2^-53 in double. */
  predicate IsFraction(x: real, precision: Precision, m: nat) {
    if precision.Single? then m < 0x100_0000 && x == m as real / 16777216.0
    else m < 0x20_0000_0000_0000 && x == m as real / 9007199254740992.0
  }

  lemma WordIsFraction(precision: Precision, word: Word)
    requires |word| == WORD_COUNT
    ensures IsFraction(Unit(word, precision), precision, Value(ShiftRight(word, WORD_COUNT - precision.Kept())))
  {
    KeptPowers();
    hide Pow2, Value, ShiftRight;
    KeptValue(word, precision.Kept());
  }

  lemma FractionIsUnit(precision: Precision, x: real, m: nat) returns (word: Word)
    requires IsFraction(x, precision, m)
    ensures |word| == WORD_COUNT && Unit(word, precision) == x
  {
    KeptPowers();
    hide Pow2, Value, ShiftRight, Bits;
    word := Zeros(WORD_COUNT - precision.Kept()) + Bits(m, precision.Kept());
    KeptWord(m, precision.Kept());
  }

  /** The coordinates are exactly the fractions of the precision. */
  lemma {:induction false} UnitsAreFractions(precision: Precision, x: real)
    ensures (exists word: Word :: |word| == WORD_COUNT && Unit(word, precision) == x) <==>
            (exists m: nat :: IsFraction(x, precision, m))
  {
    hide Unit, IsFraction;
    if word: Word :| |word| == WORD_COUNT && Unit(word, precision) == x {
      WordIsFraction(precision, word);
    }
    if m: nat :| IsFraction(x, precision, m) {
      var word := FractionIsUnit(precision, x, m);
    }
  }

  lemma KeptValue(word: Word, kept: nat)
    requires kept <= |word|
    ensures Value(ShiftRight(word, |word| - kept)) < Pow2(kept)
  {
    var high := word[|word| - kept..];
    assert ShiftRight(word, |word| - kept) == high + Zeros(|word| - kept);
    TrailingZerosKeepValue(high, |word| - kept);
    BitsOfValue(high);
  }

  lemma KeptWord(m: nat, kept: nat)
    requires kept <= WORD_COUNT && m < Pow2(kept)
    ensures Value(ShiftRight(Zeros(WORD_COUNT - kept) + Bits(m, kept), WORD_COUNT - kept)) == m
  {
    var k := WORD_COUNT - kept;
    assert ShiftRight(Zeros(k) + Bits(m, kept), k) == Bits(m, kept) + Zeros(k);
    TrailingZerosKeepValue(Bits(m, kept), k);
    ValueOfBits(m, kept);
  }
}
