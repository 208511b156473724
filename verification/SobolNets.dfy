/** Equidistribution of the Sobol point words: every aligned block of indices meets every prefix once. */
module SobolNets {
  import opened Words
  import opened Sobol

  // ----- The Gray code ------------------------------------------------------

  /** The index with a given Gray code. */
  function Ungray(g: Word): (w: Word)
    ensures |w| == |g|
  {
    if |g| == 0 then []
    else
      var rest := Ungray(g[1..]);
      [g[0] != (|rest| > 0 && rest[0])] + rest
  }

  lemma {:induction false} GrayOfUngray(g: Word)
    ensures Gray(Ungray(g)) == g
  {
    if |g| == 0 {
    } else {
      GrayOfUngray(g[1..]);
      var rest := Ungray(g[1..]);
      assert Ungray(g) == [g[0] != (|rest| > 0 && rest[0])] + rest;
      forall i | 0 <= i < |g|
        ensures Gray(Ungray(g))[i] == g[i]
      {
        if i > 0 {
          assert Gray(rest)[i - 1] == g[1..][i - 1];
        }
      }
    }
  }

  lemma {:induction false} UngrayOfGray(w: Word)
    ensures Ungray(Gray(w)) == w
  {
    if |w| == 0 {
    } else {
      UngrayOfGray(w[1..]);
      assert Gray(w)[1..] == Gray(w[1..]);
      assert w == [w[0]] + w[1..];
    }
  }

  /** High bits of the index and of its Gray code determine each other. */
  lemma {:induction false} GrayTail(a: Word, b: Word, k: nat)
    requires |a| == |b| && k <= |a|
    ensures a[k..] == b[k..] <==> Gray(a)[k..] == Gray(b)[k..]
  {
    assert Gray(a)[k..] == Gray(a[k..]);
    assert Gray(b)[k..] == Gray(b[k..]);
    UngrayOfGray(a[k..]);
    UngrayOfGray(b[k..]);
  }

  // ----- Triangularity of the direction words -------------------------------

  lemma {:induction false} ParitySkips(words: seq<Word>, gray: Word, b: nat, from: nat)
    requires Directions(words, WORD_COUNT) && |gray| == WORD_COUNT && from <= b < WORD_COUNT
    ensures Parity(words, gray, WORD_COUNT - 1 - b, from) == Parity(words, gray, WORD_COUNT - 1 - b, b)
    decreases b - from
  {
    if from < b {
      ParitySkips(words, gray, b, from + 1);
      assert !words[from][WORD_COUNT - 1 - b];
    }
  }

  lemma {:induction false} ParityReadsAbove(words: seq<Word>, g: Word, g': Word, t: nat, from: nat)
    requires Directions(words, WORD_COUNT) && |g| == |g'| == WORD_COUNT && t < WORD_COUNT && from <= WORD_COUNT
    requires g[from..] == g'[from..]
    ensures Parity(words, g, t, from) == Parity(words, g', t, from)
    decreases WORD_COUNT - from
  {
    if from < WORD_COUNT {
      assert g[from + 1..] == g[from..][1..] && g'[from + 1..] == g'[from..][1..];
      assert g[from] == g[from..][0] && g'[from] == g'[from..][0];
      ParityReadsAbove(words, g, g', t, from + 1);
    }
  }

  /** Bit `63 - b` of the selection is bit `b` of the Gray code, offset by the bits above it. */
  lemma Triangular(words: seq<Word>, gray: Word, b: nat)
    requires Directions(words, WORD_COUNT) && |gray| == WORD_COUNT && b < WORD_COUNT
    ensures Selected(words, gray)[WORD_COUNT - 1 - b]
            == (gray[b] != Parity(words, gray, WORD_COUNT - 1 - b, b + 1))
  {
    ParitySkips(words, gray, b, 0);
  }

  /** The selections agree in their top `k` bits. */
  predicate SamePrefix(a: Word, b: Word, k: nat)
    requires |a| == |b| == WORD_COUNT && k <= WORD_COUNT
  {
    a[WORD_COUNT - k..] == b[WORD_COUNT - k..]
  }

  lemma {:induction false} TailDetermined(words: seq<Word>, g: Word, g': Word, k: nat, b: nat)
    requires Directions(words, WORD_COUNT) && |g| == |g'| == WORD_COUNT && b <= k <= WORD_COUNT
    requires g[k..] == g'[k..] && SamePrefix(Selected(words, g), Selected(words, g'), k)
    ensures g[b..] == g'[b..]
    decreases k - b
  {
    if b < k {
      TailDetermined(words, g, g', k, b + 1);
      Triangular(words, g, b);
      Triangular(words, g', b);
      ParityReadsAbove(words, g, g', WORD_COUNT - 1 - b, b + 1);
      var s, s' := Selected(words, g), Selected(words, g');
      assert s[WORD_COUNT - 1 - b] == s[WORD_COUNT - k..][k - 1 - b];
      assert s'[WORD_COUNT - 1 - b] == s'[WORD_COUNT - k..][k - 1 - b];
      assert g[b..] == [g[b]] + g[b + 1..] && g'[b..] == [g'[b]] + g'[b + 1..];
    }
  }

  /** A Gray code with the given bits from `k` up whose selection has the given bits from `64 - k` below `64 - b`. */
  lemma {:induction false} SolveTail(words: seq<Word>, tail: Word, target: Word, k: nat, b: nat) returns (g: Word)
    requires Directions(words, WORD_COUNT) && |tail| == |target| == WORD_COUNT && b <= k <= WORD_COUNT
    ensures |g| == WORD_COUNT && g[k..] == tail[k..]
    ensures forall t :: WORD_COUNT - k <= t < WORD_COUNT - b ==> Selected(words, g)[t] == target[t]
    decreases k - b
  {
    hide Selected, Parity;
    if b == k {
      g := tail;
    } else {
      var h := SolveTail(words, tail, target, k, b + 1);
      g := h[b := target[WORD_COUNT - 1 - b] != Parity(words, h, WORD_COUNT - 1 - b, b + 1)];
      assert g[k..] == h[k..];
      forall t | WORD_COUNT - k <= t < WORD_COUNT - b
        ensures Selected(words, g)[t] == target[t]
      {
        SetBit(words, h, b, g[b], WORD_COUNT - 1 - t);
      }
    }
  }

  /** Choosing bit `b` decides bit `63 - b` of the selection and leaves the lower ones. */
  lemma SetBit(words: seq<Word>, h: Word, b: nat, value: bool, j: nat)
    requires Directions(words, WORD_COUNT) && |h| == WORD_COUNT && b <= j < WORD_COUNT
    ensures Selected(words, h[b := value])[WORD_COUNT - 1 - j]
            == if j == b then value != Parity(words, h, WORD_COUNT - 1 - b, b + 1)
               else Selected(words, h)[WORD_COUNT - 1 - j]
  {
    hide Parity, Selected;
    var g := h[b := value];
    Triangular(words, g, j);
    Triangular(words, h, j);
    assert g[j + 1..] == h[j + 1..];
    ParityReadsAbove(words, g, h, WORD_COUNT - 1 - j, j + 1);
  }

  // ----- Blocks of indices --------------------------------------------------

  /** Index `index` lies in block `block` of size 2^k and its point word has prefix `prefix`. */
  predicate Hits(words: seq<Word>, k: nat, block: nat, prefix: nat, index: nat)
    requires k <= WORD_COUNT && Sized(words)
  {
    && index < Pow2(WORD_COUNT)
    && index / Pow2(k) == block
    && Value(PointWord(words, index)) / Pow2(WORD_COUNT - k) == prefix
  }

  lemma TopBits(w: Word, k: nat, n: nat)
    requires k <= |w| && n < Pow2(k)
    ensures Value(w) / Pow2(|w| - k) == n <==> w[|w| - k..] == Bits(n, k)
  {
    HighValue(w, |w| - k);
    BitsOfValue(w[|w| - k..]);
    ValueOfBits(n, k);
  }

  lemma SameBlock(i: nat, j: nat, k: nat)
    requires k <= WORD_COUNT && i < Pow2(WORD_COUNT) && j < Pow2(WORD_COUNT)
    ensures i / Pow2(k) == j / Pow2(k) <==> Bits(i, WORD_COUNT)[k..] == Bits(j, WORD_COUNT)[k..]
  {
    hide Pow2, Bits, Value;
    var a, b := Bits(i, WORD_COUNT), Bits(j, WORD_COUNT);
    HighValue(a, k);
    HighValue(b, k);
    ValueOfBits(i, WORD_COUNT);
    ValueOfBits(j, WORD_COUNT);
    HighBits(i, WORD_COUNT, k);
    HighBits(j, WORD_COUNT, k);
  }

  /** At most one index of a block meets a prefix. */
  lemma {:induction false} HitsAtMostOnce(words: seq<Word>, k: nat, block: nat, prefix: nat, i: nat, j: nat)
    requires Directions(words, WORD_COUNT) && k <= WORD_COUNT && prefix < Pow2(k)
    requires Hits(words, k, block, prefix, i) && Hits(words, k, block, prefix, j)
    ensures i == j
  {
    var a, b := Bits(i, WORD_COUNT), Bits(j, WORD_COUNT);
    TopBits(PointWord(words, i), k, prefix);
    TopBits(PointWord(words, j), k, prefix);
    SameBlock(i, j, k);
    GrayTail(a, b, k);
    TailDetermined(words, Gray(a), Gray(b), k, 0);
    assert Gray(a)[0..] == Gray(a) && Gray(b)[0..] == Gray(b);
    UngrayOfGray(a);
    UngrayOfGray(b);
    ValueOfBits(i, WORD_COUNT);
    ValueOfBits(j, WORD_COUNT);
  }

  /** The index whose Gray code is `g`. */
  lemma IndexOf(g: Word) returns (index: nat)
    requires |g| == WORD_COUNT
    ensures index < Pow2(WORD_COUNT) && Gray(Bits(index, WORD_COUNT)) == g
  {
    var w := Ungray(g);
    GrayOfUngray(g);
    BitsOfValue(w);
    index := Value(w);
  }

  /** Some index of every block meets every prefix. */
  lemma {:induction false} HitsAtLeastOnce(words: seq<Word>, k: nat, block: nat, prefix: nat) returns (index: nat)
    requires Directions(words, WORD_COUNT) && k <= WORD_COUNT
    requires block < Pow2(WORD_COUNT - k) && prefix < Pow2(k)
    ensures Hits(words, k, block, prefix, index)
  {
    assert Sized(words);
    hide Pow2, Gray, Directions, Selected, Sized;
    var base := block * Pow2(k);
    BlockBase(block, k);
    var tail := Bits(base, WORD_COUNT);
    var target := Zeros(WORD_COUNT - k) + Bits(prefix, k);
    var g := SolveTail(words, Gray(tail), target, k, 0);
    index := IndexOf(g);
    GrayTail(Bits(index, WORD_COUNT), tail, k);
    SameBlock(index, base, k);
    var point := Selected(words, g);
    assert point[WORD_COUNT - k..] == target[WORD_COUNT - k..];
    TopBits(point, k, prefix);
  }

  lemma {:induction false} BlockBase(block: nat, k: nat)
    requires k <= WORD_COUNT && block < Pow2(WORD_COUNT - k)
    ensures block * Pow2(k) < Pow2(WORD_COUNT) && block * Pow2(k) / Pow2(k) == block
  {
    hide Pow2;
    PowerSum(WORD_COUNT - k, k);
    ScaledBelow(block, Pow2(WORD_COUNT - k), Pow2(k));
  }

  lemma ScaledBelow(a: nat, b: nat, p: nat)
    requires a < b && p >= 1
    ensures a * p < b * p && a * p / p == a
  {
    assert (b - a) * p == b * p - a * p;
    QuotientIs(a * p, p, a, 0);
  }

  /** Distinct indices have distinct point words. */
  lemma PointWordInjective(words: seq<Word>, i: nat, j: nat)
    requires Directions(words, WORD_COUNT) && i < Pow2(WORD_COUNT) && j < Pow2(WORD_COUNT)
    requires PointWord(words, i) == PointWord(words, j)
    ensures i == j
  {
    var value := Value(PointWord(words, i));
    BitsOfValue(PointWord(words, i));
    WholeRange(i);
    WholeRange(j);
    assert value / Pow2(0) == value;
    HitsAtMostOnce(words, WORD_COUNT, 0, value, i, j);
  }

  lemma WholeRange(i: nat)
    requires i < Pow2(WORD_COUNT)
    ensures i / Pow2(WORD_COUNT) == 0
  {
    QuotientIs(i, Pow2(WORD_COUNT), 0, i);
  }

  /** Every 64-bit word is the point word of an index. */
  lemma PointWordSurjective(words: seq<Word>, w: Word) returns (index: nat)
    requires Directions(words, WORD_COUNT) && |w| == WORD_COUNT
    ensures index < Pow2(WORD_COUNT) && PointWord(words, index) == w
  {
    BitsOfValue(w);
    index := HitsAtLeastOnce(words, WORD_COUNT, 0, Value(w));
    var point := PointWord(words, index);
    assert Value(point) / Pow2(0) == Value(point);
    BitsOfValue(point);
  }
}
