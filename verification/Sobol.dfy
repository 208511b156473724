/** Sobol direction words and the Gray-code point words they generate. */
module Sobol {
  import opened Results
  import opened Words

  const WORD_COUNT: nat := 64

  /** One row of the direction table. */
  datatype Row = Row(degree: nat, coefficient: nat, initial: seq<nat>)

  /** What the table generator accepts of a row. */
  predicate Accepted(row: Row) {
    && 1 <= row.degree <= 31
    && row.coefficient < Pow2(row.degree - 1)
    && |row.initial| == row.degree
    && forall index :: 0 <= index < row.degree ==>
         row.initial[index] % 2 == 1 && row.initial[index] < Pow2(index + 1)
  }

  // ----- Direction words ----------------------------------------------------

  /** A word whose lowest set bit is bit `k`. */
  predicate LowestSetBit(word: Word, k: nat) {
    && |word| == WORD_COUNT && k < WORD_COUNT
    && word[k]
    && forall i :: 0 <= i < k ==> !word[i]
  }

  /** Direction word `i` has its lowest set bit at `63 - i`, for the first `count` words. */
  predicate Directions(words: seq<Word>, count: nat) {
    && count <= WORD_COUNT <= |words|
    && forall i :: 0 <= i < count ==> LowestSetBit(words[i], WORD_COUNT - 1 - i)
  }

  lemma ShiftedOddWord(value: nat, k: nat)
    requires value % 2 == 1 && k < WORD_COUNT
    ensures LowestSetBit(ShiftLeft(Bits(value, WORD_COUNT), k), k)
  {
  }

  lemma {:induction false} BitsBelow(n: nat, width: nat, k: nat)
    requires k <= width && n < Pow2(k)
    ensures forall i :: k <= i < width ==> !Bits(n, width)[i]
  {
    if width == 0 {
    } else {
      if k > 0 {
        BitsBelow(n / 2, width - 1, k - 1);
      } else {
        BitsBelow(n / 2, width - 1, 0);
      }
    }
  }

  /** An accepted initial value loses no bit when it is shifted into place. */
  lemma {:induction false} InitialShiftIsExact(value: nat, index: nat)
    requires index < WORD_COUNT && value < Pow2(index + 1)
    ensures Value(ShiftLeft(Bits(value, WORD_COUNT), WORD_COUNT - 1 - index)) == value * Pow2(WORD_COUNT - 1 - index)
  {
    var k := WORD_COUNT - 1 - index;
    var w := Bits(value, WORD_COUNT);
    BitsBelow(value, WORD_COUNT, index + 1);
    LowPart(w, index + 1);
    ValueOfBitsBelow(value, index + 1);
    ShiftedValue(w[..index + 1], k);
    assert ShiftLeft(w, k) == Zeros(k) + w[..index + 1];
  }

  lemma {:induction false} LowPart(w: Word, k: nat)
    requires k <= |w|
    ensures w == w[..k] + w[k..]
  {
  }

  lemma ValueOfBitsBelow(value: nat, k: nat)
    requires k <= WORD_COUNT && value < Pow2(k)
    ensures Value(Bits(value, WORD_COUNT)[..k]) == value
  {
    PrefixBits(value, WORD_COUNT, k);
    ValueOfBits(value, k);
  }

  lemma {:induction false} PrefixBits(n: nat, width: nat, k: nat)
    requires k <= width
    ensures Bits(n, width)[..k] == Bits(n, k)
  {
    if k == 0 {
    } else {
      PrefixBits(n / 2, width - 1, k - 1);
      assert Bits(n, width)[..k] == [n % 2 == 1] + Bits(n / 2, width - 1)[..k - 1];
    }
  }

  lemma {:induction false} ShiftedValue(w: Word, k: nat)
    ensures Value(Zeros(k) + w) == Value(w) * Pow2(k)
  {
    if k == 0 {
      assert Zeros(0) + w == w;
    } else {
      ShiftedValue(w, k - 1);
      assert (Zeros(k) + w)[1..] == Zeros(k - 1) + w;
    }
  }

  /** Coefficient bit of the recurrence for one offset. */
  function CoefficientBit(row: Row, offset: nat): bool
    requires offset < row.degree
  {
    (row.coefficient / Pow2(row.degree - 1 - offset)) % 2 == 1
  }

  /** The recurrence keeps the lowest set bit in place: the shifted word supplies
      it and every other term has only higher bits. */
  lemma RecurrenceStart(word: Word, degree: nat, index: nat)
    requires 1 <= degree <= index < WORD_COUNT
    requires LowestSetBit(word, WORD_COUNT - 1 - (index - degree))
    ensures LowestSetBit(Xor(word, ShiftRight(word, degree)), WORD_COUNT - 1 - index)
  {
    var k := WORD_COUNT - 1 - index;
    var shifted := ShiftRight(word, degree);
    assert shifted[k] == word[k + degree];
    assert forall i :: 0 <= i < k ==> shifted[i] == word[i + degree];
  }

  lemma RecurrenceTerm(word: Word, term: Word, k: nat, higher: nat)
    requires LowestSetBit(word, k) && LowestSetBit(term, higher) && k < higher
    ensures LowestSetBit(Xor(word, term), k)
  {
  }

  /** The xor of the recurrence's terms with offsets below `end`. */
  function Recurrence(row: Row, words: seq<Word>, index: nat, end: nat): (word: Word)
    requires 1 <= end <= row.degree <= index < |words|
    requires forall i :: 0 <= i < index ==> |words[i]| == WORD_COUNT
    ensures |word| == WORD_COUNT
  {
    if end == 1 then Xor(words[index - row.degree], ShiftRight(words[index - row.degree], row.degree))
    else
      var word := Recurrence(row, words, index, end - 1);
      if CoefficientBit(row, end - 1) then Xor(word, words[index - (end - 1)]) else word
  }

  /** The first `count` direction words of a row. */
  ghost predicate IsTable(row: Row, words: seq<Word>, count: nat)
    requires Accepted(row)
  {
    && count <= WORD_COUNT <= |words|
    && (forall i :: 0 <= i < count ==> |words[i]| == WORD_COUNT)
    && (forall i :: 0 <= i < count && i < row.degree ==>
          words[i] == ShiftLeft(Bits(row.initial[i], WORD_COUNT), WORD_COUNT - 1 - i))
    && (forall i :: row.degree <= i < count ==> words[i] == Recurrence(row, words, i, row.degree))
  }

  /** Every accepted row gives direction words with their lowest set bits in place. */
  lemma {:induction false} TableIsDirections(row: Row, words: seq<Word>, count: nat)
    requires Accepted(row) && IsTable(row, words, count)
    ensures Directions(words, count)
  {
    if count == 0 {
    } else {
      TableIsDirections(row, words, count - 1);
      var i := count - 1;
      if i < row.degree {
        ShiftedOddWord(row.initial[i], WORD_COUNT - 1 - i);
      } else {
        RecurrenceKeepsBit(row, words, i, row.degree);
      }
    }
  }

  lemma {:induction false} RecurrenceKeepsBit(row: Row, words: seq<Word>, index: nat, end: nat)
    requires 1 <= end <= row.degree <= index < WORD_COUNT <= |words| && Directions(words, index)
    ensures LowestSetBit(Recurrence(row, words, index, end), WORD_COUNT - 1 - index)
  {
    if end == 1 {
      RecurrenceStart(words[index - row.degree], row.degree, index);
    } else {
      RecurrenceKeepsBit(row, words, index, end - 1);
      if CoefficientBit(row, end - 1) {
        RecurrenceTerm(Recurrence(row, words, index, end - 1), words[index - (end - 1)],
                       WORD_COUNT - 1 - index, WORD_COUNT - 1 - (index - (end - 1)));
      }
    }
  }

  lemma {:induction false} RecurrenceReadsBelow(row: Row, words: seq<Word>, words': seq<Word>, index: nat, end: nat)
    requires 1 <= end <= row.degree <= index < |words| && index < |words'|
    requires words[..index] == words'[..index]
    requires forall i :: 0 <= i < index ==> |words[i]| == WORD_COUNT
    ensures forall i :: 0 <= i < index ==> words[i] == words'[i]
    ensures Recurrence(row, words, index, end) == Recurrence(row, words', index, end)
  {
    assert forall i :: 0 <= i < index ==> words[i] == words[..index][i] == words'[i];
    if end > 1 {
      RecurrenceReadsBelow(row, words, words', index, end - 1);
    }
  }

  /** Appending the next word keeps the table. */
  lemma {:induction false} TableGrows(row: Row, before: seq<Word>, word: Word, index: nat)
    requires Accepted(row) && IsTable(row, before, index) && index < WORD_COUNT && |word| == WORD_COUNT
    requires index < row.degree ==> word == ShiftLeft(Bits(row.initial[index], WORD_COUNT), WORD_COUNT - 1 - index)
    requires index >= row.degree ==> word == Recurrence(row, before, index, row.degree)
    ensures IsTable(row, before[index := word], index + 1)
  {
    var after := before[index := word];
    forall i | row.degree <= i < index + 1
      ensures after[i] == Recurrence(row, after, i, row.degree)
    {
      assert after[..i] == before[..i];
      RecurrenceReadsBelow(row, before, after, i, row.degree);
    }
  }

  /** What the direction words of a dimension are; dimension zero has one bit in each. */
  ghost predicate AreDirectionWords(dimension: nat, rows: seq<Row>, words: seq<Word>)
    requires dimension <= |rows|
    requires forall i :: 0 <= i < |rows| ==> Accepted(rows[i])
  {
    && |words| == WORD_COUNT
    && if dimension == 0 then
         forall i :: 0 <= i < WORD_COUNT ==> words[i] == ShiftLeft(Bits(1, WORD_COUNT), WORD_COUNT - 1 - i)
       else IsTable(rows[dimension - 1], words, WORD_COUNT)
  }

  lemma {:induction false} DirectionWordsAreDirections(dimension: nat, rows: seq<Row>, words: seq<Word>)
    requires dimension <= |rows|
    requires forall i :: 0 <= i < |rows| ==> Accepted(rows[i])
    requires AreDirectionWords(dimension, rows, words)
    ensures Directions(words, WORD_COUNT)
  {
    if dimension == 0 {
      forall i | 0 <= i < WORD_COUNT
        ensures LowestSetBit(words[i], WORD_COUNT - 1 - i)
      {
        ShiftedOddWord(1, WORD_COUNT - 1 - i);
      }
    } else {
      TableIsDirections(rows[dimension - 1], words, WORD_COUNT);
    }
  }

  lemma {:induction false} TableIsUnique(row: Row, a: seq<Word>, b: seq<Word>, count: nat)
    requires Accepted(row) && IsTable(row, a, count) && IsTable(row, b, count)
    ensures a[..count] == b[..count]
  {
    if count == 0 {
    } else {
      TableIsUnique(row, a, b, count - 1);
      var i := count - 1;
      if i >= row.degree {
        RecurrenceReadsBelow(row, a, b, i, row.degree);
      }
      assert a[..count] == a[..i] + [a[i]] && b[..count] == b[..i] + [b[i]];
    }
  }

  /** A dimension has one table of direction words. */
  lemma {:induction false} DirectionWordsAreUnique(dimension: nat, rows: seq<Row>, a: seq<Word>, b: seq<Word>)
    requires dimension <= |rows|
    requires forall i :: 0 <= i < |rows| ==> Accepted(rows[i])
    requires AreDirectionWords(dimension, rows, a) && AreDirectionWords(dimension, rows, b)
    ensures a == b
  {
    if dimension > 0 {
      TableIsUnique(rows[dimension - 1], a, b, WORD_COUNT);
      assert a[..WORD_COUNT] == a && b[..WORD_COUNT] == b;
    }
  }

  /** The next word of the recurrence, from the words below it. */
  method NextWord(row: Row, words: array<Word>, index: nat) returns (word: Word)
    requires Accepted(row) && row.degree <= index < WORD_COUNT == words.Length && IsTable(row, words[..], index)
    ensures |word| == WORD_COUNT && word == Recurrence(row, words[..], index, row.degree)
  {
    word := Xor(words[index - row.degree], ShiftRight(words[index - row.degree], row.degree));
    for offset := 1 to row.degree
      invariant |word| == WORD_COUNT && word == Recurrence(row, words[..], index, offset)
    {
      if CoefficientBit(row, offset) {
        word := Xor(word, words[index - offset]);
      }
    }
  }

  /** Fills the direction words of one dimension. */
  method InitializeDirections(dimension: nat, rows: seq<Row>, words: array<Word>) returns (status: Status)
    requires forall i :: 0 <= i < |rows| ==> Accepted(rows[i])
    modifies words
    ensures status
            == if dimension > |rows| then Failed(Index) else if words.Length != WORD_COUNT then Failed(Shape) else Ok
    ensures status != Ok ==> words[..] == old(words[..])
    ensures status == Ok ==> AreDirectionWords(dimension, rows, words[..])
  {
    if dimension > |rows| {
      return Failed(Index);
    }
    if words.Length != WORD_COUNT {
      return Failed(Shape);
    }
    if dimension == 0 {
      for index := 0 to WORD_COUNT
        invariant forall i :: 0 <= i < index ==> words[i] == ShiftLeft(Bits(1, WORD_COUNT), WORD_COUNT - 1 - i)
      {
        words[index] := ShiftLeft(Bits(1, WORD_COUNT), WORD_COUNT - 1 - index);
      }
      return Ok;
    }
    FillRow(rows[dimension - 1], words);
    return Ok;
  }

  method FillRow(row: Row, words: array<Word>)
    requires Accepted(row) && words.Length == WORD_COUNT
    modifies words
    ensures IsTable(row, words[..], WORD_COUNT)
  {
    for index := 0 to row.degree
      invariant IsTable(row, words[..], index)
    {
      ghost var before := words[..];
      var word := ShiftLeft(Bits(row.initial[index], WORD_COUNT), WORD_COUNT - 1 - index);
      TableGrows(row, before, word, index);
      words[index] := word;
      assert words[..] == before[index := word];
    }
    for index := row.degree to WORD_COUNT
      invariant IsTable(row, words[..], index)
    {
      ghost var before := words[..];
      var word := NextWord(row, words, index);
      TableGrows(row, before, word, index);
      words[index] := word;
      assert words[..] == before[index := word];
    }
  }

  // ----- Point words --------------------------------------------------------

  predicate Sized(words: seq<Word>) {
    WORD_COUNT <= |words| && forall i :: 0 <= i < WORD_COUNT ==> |words[i]| == WORD_COUNT
  }

  /** Bit `t` of the xor of the direction words selected by bits `from` and up of `gray`. */
  function Parity(words: seq<Word>, gray: Word, t: nat, from: nat): bool
    requires |gray| == WORD_COUNT && Sized(words) && t < WORD_COUNT && from <= WORD_COUNT
    decreases WORD_COUNT - from
  {
    if from == WORD_COUNT then false
    else (gray[from] && words[from][t]) != Parity(words, gray, t, from + 1)
  }

  /** Xor of the selected direction words. */
  function Selected(words: seq<Word>, gray: Word): (w: Word)
    requires |gray| == WORD_COUNT && Sized(words)
    ensures |w| == WORD_COUNT
  {
    seq(WORD_COUNT, t requires 0 <= t < WORD_COUNT => Parity(words, gray, t, 0))
  }

  function Gray(index: Word): (g: Word)
    ensures |g| == |index|
  {
    Xor(index, ShiftRight(index, 1))
  }

  /** The point word of an index: direction words selected by its Gray code. */
  function PointWord(words: seq<Word>, index: nat): (w: Word)
    requires Sized(words)
    ensures |w| == WORD_COUNT
  {
    Selected(words, Gray(Bits(index, WORD_COUNT)))
  }

  lemma {:induction false} ParityClears(words: seq<Word>, gray: Word, t: nat, from: nat, bit: nat)
    requires |gray| == WORD_COUNT && Sized(words) && t < WORD_COUNT
    requires from <= WORD_COUNT && bit < WORD_COUNT && gray[bit]
    ensures Parity(words, gray[bit := false], t, from)
            == (Parity(words, gray, t, from) != (from <= bit && words[bit][t]))
    decreases WORD_COUNT - from
  {
    if from < WORD_COUNT {
      ParityClears(words, gray, t, from + 1, bit);
    }
  }

  lemma {:induction false} ParityOfZero(words: seq<Word>, t: nat, from: nat)
    requires Sized(words) && t < WORD_COUNT && from <= WORD_COUNT
    ensures !Parity(words, Zeros(WORD_COUNT), t, from)
    decreases WORD_COUNT - from
  {
    if from < WORD_COUNT {
      ParityOfZero(words, t, from + 1);
    }
  }

  lemma {:induction false} SelectedClears(words: seq<Word>, gray: Word, bit: nat)
    requires |gray| == WORD_COUNT && Sized(words) && bit < WORD_COUNT && gray[bit]
    ensures Selected(words, gray) == Xor(words[bit], Selected(words, gray[bit := false]))
  {
    forall t | 0 <= t < WORD_COUNT
      ensures Selected(words, gray)[t] == Xor(words[bit], Selected(words, gray[bit := false]))[t]
    {
      ParityClears(words, gray, t, 0, bit);
    }
  }

  lemma SelectedOfZero(words: seq<Word>)
    requires Sized(words)
    ensures Selected(words, Zeros(WORD_COUNT)) == Zeros(WORD_COUNT)
  {
    forall t | 0 <= t < WORD_COUNT
      ensures Selected(words, Zeros(WORD_COUNT))[t] == Zeros(WORD_COUNT)[t]
    {
      ParityOfZero(words, t, 0);
    }
  }

  lemma XorMoves(word: Word, d: Word, rest: Word, total: Word)
    requires |word| == |d| == |rest| == |total|
    requires Xor(word, Xor(d, rest)) == total
    ensures Xor(Xor(word, d), rest) == total
  {
    assert forall t :: 0 <= t < |word| ==> Xor(word, Xor(d, rest))[t] == Xor(Xor(word, d), rest)[t];
  }

  lemma XorZero(a: Word)
    ensures Xor(Zeros(|a|), a) == a && Xor(a, Zeros(|a|)) == a
  {
  }

  lemma {:induction false} ClearedBits(a: Word, k: nat)
    requires k < |a| && a[k]
    ensures Value(a[k := false]) < Value(a)
  {
    if k == 0 {
    } else {
      ClearedBits(a[1..], k - 1);
      assert a[k := false][1..] == a[1..][k - 1 := false];
    }
  }

  lemma {:induction false} StripLowest(words: seq<Word>, gray: Word, word: Word, total: Word)
    requires |gray| == |word| == |total| == WORD_COUNT && Sized(words) && gray != Zeros(WORD_COUNT)
    requires Xor(word, Selected(words, gray)) == total
    ensures var bit, rest := TrailingZeros(gray), And(gray, Decrement(gray));
      && bit < WORD_COUNT && |rest| == WORD_COUNT && Value(rest) < Value(gray)
      && Xor(Xor(word, words[bit]), Selected(words, rest)) == total
  {
    ZeroValue(gray);
    var bit := TrailingZeros(gray);
    LowestBit(gray);
    ClearLowest(gray);
    ClearedBits(gray, bit);
    SelectedClears(words, gray, bit);
    XorMoves(word, words[bit], Selected(words, gray[bit := false]), total);
  }

  /** The xor of the direction words a Gray code selects, stripping one set bit at a time. */
  method SelectWords(directions: array<Word>, start: Word) returns (word: Word)
    requires |start| == directions.Length == WORD_COUNT
    requires forall i :: 0 <= i < WORD_COUNT ==> |directions[i]| == WORD_COUNT
    ensures word == Selected(directions[..], start)
  {
    hide Selected, Xor, And, Decrement, Value, TrailingZeros;
    ghost var words := directions[..];
    ghost var total := Selected(words, start);
    var gray := start;
    word := Zeros(WORD_COUNT);
    XorZero(total);
    while gray != Zeros(WORD_COUNT)
      invariant |gray| == |word| == WORD_COUNT
      invariant Xor(word, Selected(words, gray)) == total
      decreases Value(gray)
    {
      StripLowest(words, gray, word, total);
      var bit := TrailingZeros(gray);
      word := Xor(word, directions[bit]);
      gray := And(gray, Decrement(gray));
    }
    SelectedOfZero(words);
    XorZero(word);
  }

  /** `words` are the direction words of the dimension and `word` the point word of the index. */
  ghost predicate IsPointWord(dimension: nat, rows: seq<Row>, words: seq<Word>, index: nat, word: Word)
    requires forall i :: 0 <= i < |rows| ==> Accepted(rows[i])
  {
    && dimension <= |rows|
    && AreDirectionWords(dimension, rows, words) && Directions(words, WORD_COUNT)
    && word == PointWord(words, index)
  }

  /** The point word of an index. */
  method SobolWord(index: nat, dimension: nat, rows: seq<Row>) returns (status: Status, word: Word)
    requires index < Pow2(WORD_COUNT)
    requires forall i :: 0 <= i < |rows| ==> Accepted(rows[i])
    ensures status == if dimension > |rows| then Failed(Index) else Ok
    ensures status == Ok ==>
      exists words :: IsPointWord(dimension, rows, words, index, word)
  {
    hide Xor, Selected, AreDirectionWords;
    word := Zeros(WORD_COUNT);
    if dimension > |rows| {
      return Failed(Index), word;
    }
    var directions := new Word[WORD_COUNT](_ => Zeros(WORD_COUNT));
    status := InitializeDirections(dimension, rows, directions);
    ghost var words := directions[..];
    DirectionWordsAreDirections(dimension, rows, words);
    assert Sized(words);
    word := SelectWords(directions, Gray(Bits(index, WORD_COUNT)));
    assert IsPointWord(dimension, rows, words, index, word);
  }
}
