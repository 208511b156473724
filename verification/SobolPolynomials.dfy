/**
 The direction words against the primitive polynomial of their row, and the
 point words against the Gray code: both told without the functions that
 compute them.
 */
module SobolPolynomials {
  import opened Words
  import opened Sobol

  // ----- Bits of a number ---------------------------------------------------

  /** A bit of a number, as the table's readers extract it. */
  lemma {:induction false} BitOf(n: nat, width: nat, k: nat)
    requires k < width
    ensures Bits(n, width)[k] == ((n / Pow2(k)) % 2 == 1)
  {
    HighBits(n, width, k);
    assert Bits(n, width)[k] == Bits(n, width)[k..][0];
  }

  // ----- The polynomial of a row --------------------------------------------

  /** The polynomial of a row, lowest coefficient first: the leading and the
      constant coefficient are one and the table stores those between. */
  function Polynomial(row: Row): Word {
    Bits(Pow2(row.degree) + 2 * row.coefficient + 1, row.degree + 1)
  }

  /** Bit `t` of the combination of consecutive words that the low `count` coefficients select. */
  ghost function Combination(p: Word, words: seq<Word>, from: nat, t: nat, count: nat): bool
    requires count <= |p| && from + count <= |words|
    requires forall i :: from <= i < from + count ==> t < |words[i]|
  {
    if count == 0 then false
    else (p[count - 1] && words[from + count - 1][t]) != Combination(p, words, from, t, count - 1)
  }

  lemma PolynomialParts(row: Row)
    requires Accepted(row)
    ensures |Polynomial(row)| == row.degree + 1 && Polynomial(row)[0] && Polynomial(row)[row.degree]
    ensures Polynomial(row) == [true] + Bits(row.coefficient, row.degree - 1) + [true]
    ensures forall j :: 1 <= j < row.degree ==> Polynomial(row)[j] == Bits(row.coefficient, row.degree - 1)[j - 1]
  {
    var s, c := row.degree, row.coefficient;
    var half := Pow2(s - 1) + c;
    assert (Pow2(s) + 2 * c + 1) / 2 == half;
    LeadingBit(c, s - 1);
    assert Polynomial(row) == [true] + Bits(half, s);
  }

  lemma {:induction false} LeadingBit(c: nat, width: nat)
    requires c < Pow2(width)
    ensures Bits(Pow2(width) + c, width + 1) == Bits(c, width) + [true]
  {
    if width == 0 {
      assert c == 0;
    } else {
      var half := Pow2(width - 1);
      LeadingBit(c / 2, width - 1);
      assert Pow2(width) == 2 * half;
      hide Pow2;
      assert (2 * half + c) / 2 == half + c / 2 && (2 * half + c) % 2 == c % 2;
      assert Bits(2 * half + c, width + 1) == [c % 2 == 1] + Bits(half + c / 2, width);
      assert Bits(c, width) == [c % 2 == 1] + Bits(c / 2, width - 1);
    }
  }

  /** The coefficient bits of the recurrence spell the row's coefficient. */
  lemma CoefficientSpelled(row: Row, bits: Word)
    requires Accepted(row) && |bits| == row.degree - 1
    requires forall j :: 0 <= j < row.degree - 1 ==> bits[j] == CoefficientBit(row, row.degree - 1 - j)
    ensures Value(bits) == row.coefficient
  {
    forall j | 0 <= j < row.degree - 1
      ensures bits[j] == Bits(row.coefficient, row.degree - 1)[j]
    {
      BitOf(row.coefficient, row.degree - 1, j);
    }
    assert bits == Bits(row.coefficient, row.degree - 1);
    ValueOfBits(row.coefficient, row.degree - 1);
  }

  // ----- The recurrence -----------------------------------------------------

  predicate SizedBelow(words: seq<Word>, count: nat) {
    count <= |words| && forall i :: 0 <= i < count ==> |words[i]| == WORD_COUNT
  }

  /** Bit `t` of the oldest word of a window, shifted down by the degree. */
  ghost predicate Shifted(row: Row, words: seq<Word>, index: nat, t: nat)
    requires row.degree <= index && SizedBelow(words, index)
    requires 1 <= row.degree
  {
    t + row.degree < WORD_COUNT && words[index - row.degree][t + row.degree]
  }

  lemma CoefficientInPolynomial(row: Row, offset: nat)
    requires Accepted(row) && 1 <= offset < row.degree
    ensures |Polynomial(row)| == row.degree + 1
    ensures CoefficientBit(row, offset) == Polynomial(row)[row.degree - offset]
  {
    PolynomialParts(row);
    BitOf(row.coefficient, row.degree - 1, row.degree - 1 - offset);
  }

  lemma {:induction false} RecurrenceIsCombination(row: Row, words: seq<Word>, index: nat, end: nat, t: nat)
    requires Accepted(row) && 1 <= end <= row.degree <= index < |words| && SizedBelow(words, index) && t < WORD_COUNT
    ensures (Recurrence(row, words, index, end)[t]
             != Combination(Polynomial(row), words, index - row.degree, t, row.degree - end + 1))
            == ((Combination(Polynomial(row), words, index - row.degree, t, row.degree)
                 != words[index - row.degree][t]) != Shifted(row, words, index, t))
  {
    PolynomialParts(row);
    hide Polynomial, Bits, Pow2, CoefficientBit, IsTable;
    if end > 1 {
      var offset := end - 1;
      RecurrenceIsCombination(row, words, index, offset, t);
      CoefficientInPolynomial(row, offset);
    }
  }

  /** The word the recurrence gives is the one that makes the combination with
      the polynomial's coefficients the shifted oldest word. */
  lemma {:induction false} RecurrenceByPolynomial(row: Row, words: seq<Word>, index: nat, t: nat)
    requires Accepted(row) && row.degree <= index && SizedBelow(words, index + 1) && t < WORD_COUNT
    ensures words[index][t] == Recurrence(row, words, index, row.degree)[t]
            <==> Combination(Polynomial(row), words, index - row.degree, t, row.degree + 1)
                 == Shifted(row, words, index, t)
  {
    PolynomialParts(row);
    RecurrenceIsCombination(row, words, index, row.degree, t);
    var from := index - row.degree;
    assert Combination(Polynomial(row), words, from, t, 0) == false;
    assert Combination(Polynomial(row), words, from, t, 1) == words[from][t];
  }

  /** Word `index` and its predecessors satisfy the linear recurrence of the row's polynomial in every bit. */
  ghost predicate Tied(row: Row, words: seq<Word>, index: nat)
    requires Accepted(row) && row.degree <= index && SizedBelow(words, index + 1)
  {
    forall t :: 0 <= t < WORD_COUNT ==>
      Combination(Polynomial(row), words, index - row.degree, t, row.degree + 1) == Shifted(row, words, index, t)
  }

  lemma {:induction false} ShiftedValueIff(word: Word, value: nat, index: nat)
    requires |word| == WORD_COUNT && index < WORD_COUNT && value < Pow2(index + 1)
    ensures word == ShiftLeft(Bits(value, WORD_COUNT), WORD_COUNT - 1 - index)
            <==> Value(word) == value * Pow2(WORD_COUNT - 1 - index)
  {
    InitialShiftIsExact(value, index);
    BitsOfValue(word);
    BitsOfValue(ShiftLeft(Bits(value, WORD_COUNT), WORD_COUNT - 1 - index));
  }

  lemma TiedIff(row: Row, words: seq<Word>, index: nat)
    requires Accepted(row) && row.degree <= index && SizedBelow(words, index + 1)
    ensures words[index] == Recurrence(row, words, index, row.degree) <==> Tied(row, words, index)
  {
    hide Combination, Polynomial, Recurrence, Shifted;
    PolynomialLength(row);
    var word := Recurrence(row, words, index, row.degree);
    forall t | 0 <= t < WORD_COUNT
      ensures words[index][t] == word[t]
              <==> Combination(Polynomial(row), words, index - row.degree, t, row.degree + 1)
                   == Shifted(row, words, index, t)
    {
      RecurrenceByPolynomial(row, words, index, t);
    }
    assert words[index] == word <==> forall t :: 0 <= t < WORD_COUNT ==> words[index][t] == word[t];
  }

  lemma PolynomialLength(row: Row)
    ensures |Polynomial(row)| == row.degree + 1
  {
  }

  /** The words are the table of a row if and only if the first ones are its
      initial values, aligned to the top, and every later one is tied to its
      predecessors by the polynomial. */
  lemma {:induction false} TableIffPolynomial(row: Row, words: seq<Word>)
    requires Accepted(row) && |words| == WORD_COUNT && SizedBelow(words, WORD_COUNT)
    ensures IsTable(row, words, WORD_COUNT) <==>
      && (forall i :: 0 <= i < row.degree ==> Value(words[i]) == row.initial[i] * Pow2(WORD_COUNT - 1 - i))
      && (forall i :: row.degree <= i < WORD_COUNT ==> Tied(row, words, i))
  {
    hide Tied, Recurrence, ShiftLeft, Bits, Value, Pow2;
    forall i | 0 <= i < row.degree
      ensures words[i] == ShiftLeft(Bits(row.initial[i], WORD_COUNT), WORD_COUNT - 1 - i)
              <==> Value(words[i]) == row.initial[i] * Pow2(WORD_COUNT - 1 - i)
    {
      ShiftedValueIff(words[i], row.initial[i], i);
    }
    forall i | row.degree <= i < WORD_COUNT
      ensures words[i] == Recurrence(row, words, i, row.degree) <==> Tied(row, words, i)
    {
      TiedIff(row, words, i);
    }
  }

  // ----- Gray-code order ----------------------------------------------------

  /** The two-adic order of a positive number. */
  predicate HasOrder(n: nat, k: nat) {
    n % Pow2(k) == 0 && (n / Pow2(k)) % 2 == 1
  }

  lemma HalfHasOrder(n: nat, k: nat)
    requires n >= 1 && HasOrder(n, k)
    ensures k == 0 <==> n % 2 == 1
    ensures k > 0 ==> HasOrder(n / 2, k - 1)
  {
    if k > 0 {
      var p := Pow2(k - 1);
      var q := n / (2 * p);
      assert n == 2 * (p * q) && n / 2 == p * q + 0;
      Words.QuotientIs(n / 2, p, q, 0);
    }
  }

  /** Counting up by one turns the trailing ones to zeros and the zero above them to a one. */
  lemma {:induction false} CountingUp(n: nat, width: nat, k: nat)
    requires k < width && HasOrder(n + 1, k)
    ensures forall t :: 0 <= t < k ==> Bits(n, width)[t] && !Bits(n + 1, width)[t]
    ensures !Bits(n, width)[k] && Bits(n + 1, width)[k]
    ensures forall t :: k < t < width ==> Bits(n, width)[t] == Bits(n + 1, width)[t]
  {
    HalfHasOrder(n + 1, k);
    if k == 0 {
      assert (n + 1) / 2 == n / 2;
    } else {
      assert (n + 1) / 2 == n / 2 + 1;
      CountingUp(n / 2, width - 1, k - 1);
    }
  }

  /** So the Gray codes of consecutive numbers differ in that one bit. */
  lemma GrayStep(n: nat, width: nat, k: nat)
    requires k < width && HasOrder(n + 1, k)
    ensures var g, h := Gray(Bits(n, width)), Gray(Bits(n + 1, width));
      h == g[k := !g[k]]
  {
    hide Gray, HasOrder;
    CountingUp(n, width, k);
    hide Bits;
    GrayFlips(Bits(n, width), Bits(n + 1, width), k);
  }

  lemma GrayFlips(a: Word, b: Word, k: nat)
    requires |a| == |b| && k < |a|
    requires forall t :: 0 <= t < k ==> a[t] && !b[t]
    requires !a[k] && b[k]
    requires forall t :: k < t < |a| ==> a[t] == b[t]
    ensures Gray(b) == Gray(a)[k := !Gray(a)[k]]
  {
    var expected := Gray(a)[k := !Gray(a)[k]];
    forall t | 0 <= t < |a|
      ensures Gray(b)[t] == expected[t]
    {
      assert Gray(a)[t] == (a[t] != (t + 1 < |a| && a[t + 1]));
      assert Gray(b)[t] == (b[t] != (t + 1 < |a| && b[t + 1]));
    }
  }

  lemma {:induction false} SelectedFlips(words: seq<Word>, gray: Word, k: nat)
    requires |gray| == WORD_COUNT && Sized(words) && k < WORD_COUNT
    ensures Selected(words, gray[k := !gray[k]]) == Xor(Selected(words, gray), words[k])
  {
    hide Selected;
    var other := gray[k := !gray[k]];
    if gray[k] {
      SelectedClears(words, gray, k);
      assert other == gray[k := false];
      XorBack(words[k], Selected(words, other));
    } else {
      SelectedClears(words, other, k);
      assert other[k := false] == gray;
      XorBack(words[k], Selected(words, gray));
    }
  }

  lemma XorBack(a: Word, b: Word)
    requires |a| == |b|
    ensures Xor(Xor(a, b), a) == b && Xor(b, a) == Xor(a, b)
  {
  }

  /** The point words in order: the first is zero, and the word of the next index
      differs from the last by the direction word of the index's two-adic order. */
  lemma NextPointWord(words: seq<Word>, index: nat, k: nat)
    requires Sized(words) && k < WORD_COUNT && HasOrder(index + 1, k)
    ensures PointWord(words, 0) == Zeros(WORD_COUNT)
    ensures PointWord(words, index + 1) == Xor(PointWord(words, index), words[k])
  {
    hide Bits, Selected, HasOrder;
    GrayStep(index, WORD_COUNT, k);
    SelectedFlips(words, Gray(Bits(index, WORD_COUNT)), k);
    BitsOfZero(WORD_COUNT);
    SelectedOfZero(words);
    assert Gray(Zeros(WORD_COUNT)) == Zeros(WORD_COUNT);
  }

  lemma {:induction false} BitsOfZero(width: nat)
    ensures Bits(0, width) == Zeros(width)
  {
    if width > 0 {
      BitsOfZero(width - 1);
    }
  }
}
