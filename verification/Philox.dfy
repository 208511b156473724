/** The Philox4x32-10 counter-based generator. */
module Philox {
  import opened Results
  import opened Words
  import SplitMix

  const HALF_RANGE: nat := 0x1_0000_0000
  const FIRST_MULTIPLIER: nat := 0xD2511F53
  const SECOND_MULTIPLIER: nat := 0xCD9E8D57
  const FIRST_INVERSE: nat := 0x991a7cdb
  const SECOND_INVERSE: nat := 0x6d7cae67

  datatype Counter = Counter(c0: nat, c1: nat, c2: nat, c3: nat)
  datatype Key = Key(k0: nat, k1: nat)

  predicate IsCounter(c: Counter) {
    c.c0 < HALF_RANGE && c.c1 < HALF_RANGE && c.c2 < HALF_RANGE && c.c3 < HALF_RANGE
  }

  predicate IsKey(k: Key) {
    k.k0 < HALF_RANGE && k.k1 < HALF_RANGE
  }

  function LowWord(value: nat): (w: nat)
    ensures w < HALF_RANGE
  {
    value % HALF_RANGE
  }

  function HighWord(value: nat): (w: nat)
    ensures w < HALF_RANGE
  {
    value / HALF_RANGE % HALF_RANGE
  }

  function XorWords(a: nat, b: nat): nat {
    Value(Xor(Bits(a, 32), Bits(b, 32)))
  }

  // ----- One round ----------------------------------------------------------

  function Round(c: Counter, k: Key): Counter {
    var first := FIRST_MULTIPLIER * c.c0;
    var second := SECOND_MULTIPLIER * c.c2;
    Counter(XorWords(XorWords(HighWord(second), c.c1), k.k0), LowWord(second),
            XorWords(XorWords(HighWord(first), c.c3), k.k1), LowWord(first))
  }

  function BumpKey(k: Key): (b: Key)
    ensures IsKey(b)
  {
    Key(LowWord(k.k0 + 0x9E3779B9), LowWord(k.k1 + 0xBB67AE85))
  }

  /** Recovers the counter a round started from. */
  function Unround(r: Counter, k: Key): Counter {
    var c0 := LowWord(r.c3 * FIRST_INVERSE);
    var c2 := LowWord(r.c1 * SECOND_INVERSE);
    Counter(c0, XorWords(XorWords(r.c0, k.k0), HighWord(SECOND_MULTIPLIER * c2)),
            c2, XorWords(XorWords(r.c2, k.k1), HighWord(FIRST_MULTIPLIER * c0)))
  }

  lemma HalfRangeIsPower()
    ensures Pow2(32) == HALF_RANGE
  {
    assert Pow2(8) == 256;
    hide Pow2;
    PowerSum(8, 8);
    PowerSum(16, 16);
  }

  /** Xor on 32-bit words, as the round and its inverse use it. */
  lemma XorWordsCancels(a: nat, b: nat, c: nat)
    requires a < HALF_RANGE && b < HALF_RANGE && c < HALF_RANGE
    ensures XorWords(a, b) < HALF_RANGE
    ensures XorWords(XorWords(XorWords(XorWords(a, b), c), c), a) == b
    ensures XorWords(XorWords(a, XorWords(XorWords(b, c), a)), c) == b
  {
    HalfRangeIsPower();
    hide Pow2;
    var x, y, z := Bits(a, 32), Bits(b, 32), Bits(c, 32);
    XorCancelsAround(x, y, z);
    ValueOfBits(b, 32);
    hide Bits, Xor, Value;
    XorWordsIs(x, y);
    XorWordsIs(Xor(x, y), z);
    XorWordsIs(Xor(Xor(x, y), z), z);
    XorWordsIs(Xor(Xor(Xor(x, y), z), z), x);
    XorWordsIs(y, z);
    XorWordsIs(Xor(y, z), x);
    XorWordsIs(x, Xor(Xor(y, z), x));
    XorWordsIs(Xor(x, Xor(Xor(y, z), x)), z);
  }

  lemma XorCancelsAround(x: Word, y: Word, z: Word)
    requires |x| == |y| == |z|
    ensures Xor(Xor(Xor(Xor(x, y), z), z), x) == y
    ensures Xor(Xor(x, Xor(Xor(y, z), x)), z) == y
  {
  }

  lemma XorWordsIs(x: Word, y: Word)
    requires |x| == |y| == 32
    ensures Bits(Value(Xor(x, y)), 32) == Xor(x, y) && Value(Xor(x, y)) < Pow2(32)
  {
    BitsOfValue(Xor(x, y));
  }

  lemma MultipliersInvert(a: nat)
    requires a < HALF_RANGE
    ensures LowWord(LowWord(FIRST_MULTIPLIER * a) * FIRST_INVERSE) == a
    ensures LowWord(LowWord(SECOND_MULTIPLIER * a) * SECOND_INVERSE) == a
    ensures LowWord(FIRST_MULTIPLIER * LowWord(a * FIRST_INVERSE)) == a
    ensures LowWord(SECOND_MULTIPLIER * LowWord(a * SECOND_INVERSE)) == a
  {
    SplitMix.Unmultiply(a, FIRST_MULTIPLIER, FIRST_INVERSE, HALF_RANGE);
    SplitMix.Unmultiply(a, SECOND_MULTIPLIER, SECOND_INVERSE, HALF_RANGE);
    SplitMix.Unmultiply(a, FIRST_INVERSE, FIRST_MULTIPLIER, HALF_RANGE);
    SplitMix.Unmultiply(a, SECOND_INVERSE, SECOND_MULTIPLIER, HALF_RANGE);
  }

  /** A round is a permutation of the counters: `Unround` inverts it on both sides. */
  lemma {:induction false} RoundIsInvertible(c: Counter, k: Key)
    requires IsCounter(c) && IsKey(k)
    ensures IsCounter(Round(c, k)) && IsCounter(Unround(c, k))
    ensures Unround(Round(c, k), k) == c
    ensures Round(Unround(c, k), k) == c
  {
    hide LowWord, HighWord, XorWords;
    MultipliersInvert(c.c0);
    MultipliersInvert(c.c1);
    MultipliersInvert(c.c2);
    MultipliersInvert(c.c3);
    var u := Unround(c, k);
    XorWordsCancels(HighWord(SECOND_MULTIPLIER * c.c2), c.c1, k.k0);
    XorWordsCancels(HighWord(FIRST_MULTIPLIER * c.c0), c.c3, k.k1);
    XorWordsCancels(XorWords(HighWord(SECOND_MULTIPLIER * c.c2), c.c1), k.k0, k.k0);
    XorWordsCancels(XorWords(HighWord(FIRST_MULTIPLIER * c.c0), c.c3), k.k1, k.k1);
    XorWordsCancels(HighWord(SECOND_MULTIPLIER * u.c2), c.c0, k.k0);
    XorWordsCancels(HighWord(FIRST_MULTIPLIER * u.c0), c.c2, k.k1);
    XorWordsCancels(c.c0, k.k0, k.k0);
    XorWordsCancels(c.c2, k.k1, k.k1);
    XorWordsCancels(XorWords(c.c0, k.k0), HighWord(SECOND_MULTIPLIER * u.c2), k.k0);
    XorWordsCancels(XorWords(c.c2, k.k1), HighWord(FIRST_MULTIPLIER * u.c0), k.k1);
  }

  // ----- Ten rounds ---------------------------------------------------------

  /** The key of round `n`. */
  function RoundKey(k: Key, n: nat): (r: Key)
    requires IsKey(k)
    ensures IsKey(r)
  {
    if n == 0 then k else BumpKey(RoundKey(k, n - 1))
  }

  lemma ModuloAbsorbs(a: nat, b: nat)
    ensures LowWord(LowWord(a) + b) == LowWord(a + b)
  {
    var q := a / HALF_RANGE;
    assert a == HALF_RANGE * q + a % HALF_RANGE;
    SplitMix.DivisionSplits(LowWord(a) + b, HALF_RANGE);
    SplitMix.ModuloOfSum(LowWord(LowWord(a) + b), HALF_RANGE, q + (LowWord(a) + b) / HALF_RANGE, a + b);
  }

  /** The round keys are two arithmetic progressions. */
  lemma {:induction false} RoundKeyIsWeyl(k: Key, n: nat)
    requires IsKey(k)
    ensures RoundKey(k, n) == Key((k.k0 + n * 0x9E3779B9) % HALF_RANGE, (k.k1 + n * 0xBB67AE85) % HALF_RANGE)
  {
    if n == 0 {
    } else {
      RoundKeyIsWeyl(k, n - 1);
      ModuloAbsorbs(k.k0 + (n - 1) * 0x9E3779B9, 0x9E3779B9);
      ModuloAbsorbs(k.k1 + (n - 1) * 0xBB67AE85, 0xBB67AE85);
    }
  }

  function Rounds(c: Counter, k: Key, n: nat): Counter
    requires IsKey(k)
  {
    if n == 0 then c else Round(Rounds(c, k, n - 1), RoundKey(k, n - 1))
  }

  function Unrounds(r: Counter, k: Key, n: nat): Counter
    requires IsKey(k)
    decreases n
  {
    if n == 0 then r else Unrounds(Unround(r, RoundKey(k, n - 1)), k, n - 1)
  }

  /** For a fixed key any number of rounds is a permutation of the counters. */
  lemma {:induction false} RoundsAreInvertible(c: Counter, k: Key, n: nat)
    requires IsCounter(c) && IsKey(k)
    ensures IsCounter(Rounds(c, k, n)) && IsCounter(Unrounds(c, k, n))
    ensures Unrounds(Rounds(c, k, n), k, n) == c
    ensures Rounds(Unrounds(c, k, n), k, n) == c
    decreases n
  {
    hide Round, Unround, RoundKey, IsCounter, IsKey;
    if n == 0 {
    } else {
      var last := RoundKey(k, n - 1);
      RoundsAreInvertible(c, k, n - 1);
      RoundIsInvertible(Rounds(c, k, n - 1), last);
      RoundIsInvertible(c, last);
      RoundsAreInvertible(Unround(c, last), k, n - 1);
    }
  }

  method Philox4x32(counter: Counter, key: Key) returns (result: Counter)
    requires IsCounter(counter) && IsKey(key)
    ensures result == Rounds(counter, key, 10)
  {
    result := counter;
    var k := key;
    hide Round, BumpKey;
    for round := 0 to 10
      invariant result == Rounds(counter, key, round)
      invariant IsKey(k) && (round <= 9 ==> k == RoundKey(key, round))
    {
      result := Round(result, k);
      if round != 9 {
        k := BumpKey(k);
      }
    }
  }

  // ----- Addressed words ----------------------------------------------------

  function BlockCounter(subsequence: nat, block: nat): (c: Counter)
    ensures IsCounter(c)
  {
    Counter(LowWord(block), HighWord(block), LowWord(subsequence), HighWord(subsequence))
  }

  function StreamKey(stream: nat): (k: Key)
    ensures IsKey(k)
  {
    Key(LowWord(stream), HighWord(stream))
  }

  function Block(stream: nat, subsequence: nat, block: nat): Counter {
    Rounds(BlockCounter(subsequence, block), StreamKey(stream), 10)
  }

  function WordOf(c: Counter, index: nat): nat
    requires index < 4
  {
    if index == 0 then c.c0 else if index == 1 then c.c1 else if index == 2 then c.c2 else c.c3
  }

  method GenerateBlock(stream: nat, subsequence: nat, block: nat) returns (result: Counter)
    requires stream < SplitMix.WORD_RANGE && subsequence < SplitMix.WORD_RANGE && block < SplitMix.WORD_RANGE
    ensures result == Block(stream, subsequence, block)
  {
    result := Philox4x32(BlockCounter(subsequence, block), StreamKey(stream));
  }

  method GenerateWord(stream: nat, subsequence: nat, offset: nat) returns (word: nat)
    requires stream < SplitMix.WORD_RANGE && subsequence < SplitMix.WORD_RANGE && offset < SplitMix.WORD_RANGE
    ensures word == WordAt(stream, subsequence, offset)
  {
    var block := GenerateBlock(stream, subsequence, offset / 4);
    word := WordOf(block, offset % 4);
  }

  function WordAt(stream: nat, subsequence: nat, offset: nat): nat {
    WordOf(Block(stream, subsequence, offset / 4), offset % 4)
  }

  lemma WordsSplit(x: nat, y: nat)
    requires x < SplitMix.WORD_RANGE && y < SplitMix.WORD_RANGE
    requires LowWord(x) == LowWord(y) && HighWord(x) == HighWord(y)
    ensures x == y
  {
    assert x / HALF_RANGE < HALF_RANGE && y / HALF_RANGE < HALF_RANGE;
    assert x == HALF_RANGE * (x / HALF_RANGE) + x % HALF_RANGE;
    assert y == HALF_RANGE * (y / HALF_RANGE) + y % HALF_RANGE;
  }

  /** The counter counts blocks within subsequences, lowest word first; the key is the stream. */
  lemma AddressesCount(stream: nat, subsequence: nat, block: nat)
    requires stream < SplitMix.WORD_RANGE && subsequence < SplitMix.WORD_RANGE && block < SplitMix.WORD_RANGE
    ensures var c := BlockCounter(subsequence, block);
      c.c0 + HALF_RANGE * (c.c1 + HALF_RANGE * (c.c2 + HALF_RANGE * c.c3))
      == block + SplitMix.WORD_RANGE * subsequence
    ensures var k := StreamKey(stream); k.k0 + HALF_RANGE * k.k1 == stream
  {
    Halves(block);
    Halves(subsequence);
    Halves(stream);
  }

  lemma Halves(x: nat)
    requires x < SplitMix.WORD_RANGE
    ensures LowWord(x) + HALF_RANGE * HighWord(x) == x
  {
  }

  /** Within a stream, distinct addresses give distinct blocks. */
  lemma {:induction false} BlocksAreDistinct(stream: nat, s: nat, b: nat, s': nat, b': nat)
    requires s < SplitMix.WORD_RANGE && b < SplitMix.WORD_RANGE && s' < SplitMix.WORD_RANGE && b' < SplitMix.WORD_RANGE
    requires Block(stream, s, b) == Block(stream, s', b')
    ensures s == s' && b == b'
  {
    hide Rounds, Unrounds, LowWord, HighWord;
    RoundsAreInvertible(BlockCounter(s, b), StreamKey(stream), 10);
    RoundsAreInvertible(BlockCounter(s', b'), StreamKey(stream), 10);
    WordsSplit(s, s');
    WordsSplit(b, b');
  }

  /** The words of the first `n` blocks, in order. */
  function Flattened(stream: nat, subsequence: nat, n: nat): seq<nat> {
    if n == 0 then []
    else
      var c := Block(stream, subsequence, n - 1);
      Flattened(stream, subsequence, n - 1) + [c.c0, c.c1, c.c2, c.c3]
  }

  /** Addressing by offset reads the blocks one after the other. */
  lemma {:induction false} OffsetsReadBlocks(stream: nat, subsequence: nat, n: nat, offset: nat)
    requires offset < 4 * n
    ensures |Flattened(stream, subsequence, n)| == 4 * n
    ensures Flattened(stream, subsequence, n)[offset] == WordAt(stream, subsequence, offset)
  {
    hide Block;
    FlattenedLength(stream, subsequence, n);
    FlattenedLength(stream, subsequence, n - 1);
    if offset < 4 * (n - 1) {
      OffsetsReadBlocks(stream, subsequence, n - 1, offset);
    }
  }

  lemma {:induction false} FlattenedLength(stream: nat, subsequence: nat, n: nat)
    ensures |Flattened(stream, subsequence, n)| == 4 * n
  {
    if n == 0 {
    } else {
      FlattenedLength(stream, subsequence, n - 1);
    }
  }
}
