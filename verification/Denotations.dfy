/** What the text of an option's value denotes, told without the functions that read it. */
module Denotations {
  import opened Results
  import opened Values
  import opened CommandLine
  import Utf8

  // ----- Decimal numbers ----------------------------------------------------

  /** The decimal form of a number, possibly after some zeros. */
  ghost predicate SpellsNatural(text: string, n: nat) {
    exists zeros: nat :: text == Padded(zeros, n)
  }

  function Padded(zeros: nat, n: nat): string {
    seq(zeros, _ => '0') + Decimal(n)
  }

  /** A number or, after a minus sign, its negation. */
  ghost predicate SpellsInteger(text: string, n: int) {
    || (n >= 0 && SpellsNatural(text, n))
    || (n <= 0 && |text| > 0 && text[0] == '-' && SpellsNatural(text[1..], -n))
  }

  lemma DigitsUnfold(text: string, d: nat)
    requires d < 10
    ensures Digits([Digit(d)]) == Some(d)
    ensures |text| > 0 ==>
              Digits(text + [Digit(d)])
              == match Digits(text) case None => None case Some(high) => Some(10 * high + d)
  {
    if |text| > 0 {
      assert (text + [Digit(d)])[..|text|] == text;
    }
  }

  lemma {:induction false} DigitsOfDecimal(n: nat)
    ensures Digits(Decimal(n)) == Some(n)
  {
    if n < 10 {
      DigitsUnfold("", n);
    } else {
      DigitsOfDecimal(n / 10);
      DigitsUnfold(Decimal(n / 10), n % 10);
    }
  }

  lemma {:induction false} DigitsOfPadded(zeros: nat, text: string, n: nat)
    requires Digits(text) == Some(n)
    ensures Digits(seq(zeros, _ => '0') + text) == Some(n)
    decreases |text|
  {
    var padding := seq(zeros, _ => '0');
    var init, last := text[..|text| - 1], text[|text| - 1];
    assert text == init + [last];
    var d := (last - '0') as int;
    assert last == Digit(d);
    assert padding + text == (padding + init) + [last];
    if |init| == 0 {
      PaddingIsZero(zeros);
      DigitsUnfold(padding, d);
      assert padding + init == padding;
    } else {
      DigitsOfPadded(zeros, init, Digits(init).value);
      DigitsUnfold(init, d);
      DigitsUnfold(padding + init, d);
    }
  }

  lemma {:induction false} PaddingIsZero(zeros: nat)
    ensures zeros > 0 ==> Digits(seq(zeros, _ => '0')) == Some(0)
  {
    if zeros > 0 {
      var shorter := seq(zeros - 1, _ => '0');
      PaddingIsZero(zeros - 1);
      assert seq(zeros, _ => '0') == shorter + [Digit(0)];
      DigitsUnfold(shorter, 0);
    }
  }

  lemma {:induction false} DigitsAreSpelled(text: string)
    requires Digits(text).Some?
    ensures SpellsNatural(text, Digits(text).value)
    decreases |text|
  {
    var init, last := text[..|text| - 1], text[|text| - 1];
    var n, d := Digits(text).value, (last - '0') as int;
    assert last == Digit(d);
    if |init| == 0 {
      assert text == Padded(0, n);
    } else {
      DigitsAreSpelled(init);
      var high := Digits(init).value;
      var zeros: nat :| init == Padded(zeros, high);
      assert text == init + [Digit(d)] && n == 10 * high + d;
      if high == 0 {
        assert seq(zeros + 1, _ => '0') == seq(zeros, _ => '0') + [Digit(0)];
        assert text == Padded(zeros + 1, n);
      } else {
        assert n / 10 == high && n % 10 == d;
        assert text == Padded(zeros, n);
      }
    }
  }

  /** Reading digits gives exactly the number they spell. */
  lemma {:induction false} DigitsIff(text: string, n: nat)
    ensures Digits(text) == Some(n) <==> SpellsNatural(text, n)
  {
    if Digits(text) == Some(n) {
      DigitsAreSpelled(text);
    }
    if SpellsNatural(text, n) {
      var zeros: nat :| text == Padded(zeros, n);
      DigitsOfDecimal(n);
      DigitsOfPadded(zeros, Decimal(n), n);
    }
  }

  lemma {:induction false} NoSign(text: string)
    requires Digits(text).Some?
    ensures |text| > 0 && text[0] != '-'
    decreases |text|
  {
    if |text| > 1 {
      NoSign(text[..|text| - 1]);
    }
  }

  /** Reading a signed number gives exactly the integer it spells. */
  lemma {:induction false} SignedIff(text: string, n: int)
    ensures SignedDigits(text) == Some(n) <==> SpellsInteger(text, n)
  {
    hide Digits, SpellsNatural;
    var negative := |text| > 0 && text[0] == '-';
    if negative {
      if n <= 0 {
        DigitsIff(text[1..], -n);
      }
      if n >= 0 {
        DigitsIff(text, n);
        if SpellsNatural(text, n) {
          NoSign(text);
        }
      }
    } else if n >= 0 {
      DigitsIff(text, n);
    }
  }

  // ----- Values -------------------------------------------------------------

  ghost predicate IsUnicode(text: string) {
    exists scalars :: Utf8.AreScalars(scalars) && Utf8.EncodeAll(scalars) == Bytes(text)
  }

  /** The text denotes this value of this type. */
  ghost predicate Denotes(text: string, kind: Kind, value: Value, readDouble: string -> Option<Number>) {
    match kind
    case BooleanKind => (text == "true" && value == Boolean(true)) || (text == "false" && value == Boolean(false))
    case SignedKind =>
      && value.Signed? && -0x8000_0000_0000_0000 <= value.signed < 0x8000_0000_0000_0000
      && SpellsInteger(text, value.signed)
    case UnsignedKind =>
      value.Unsigned? && value.unsigned < 0x1_0000_0000_0000_0000 && SpellsNatural(text, value.unsigned)
    case DoubleKind => value.Double? && readDouble(text) == Some(value.number)
    case StringKind => value == Text(text) && IsUnicode(text)
    case _ => false
  }

  /** Parsing succeeds with exactly the value the text denotes; each refusal has its own code. */
  lemma {:induction false} ParsesIff(text: string, kind: Kind, value: Value, readDouble: string -> Option<Number>)
    ensures ParseValue(text, kind, readDouble) == Success(value) <==> Denotes(text, kind, value, readDouble)
    ensures ParseValue(text, kind, readDouble).Failure? ==>
              ParseValue(text, kind, readDouble).error
              == if kind == StringKind then Encoding
                 else if kind in {BooleanKind, SignedKind, UnsignedKind, DoubleKind} then InvalidArgument
                 else Unsupported
  {
    hide Digits, SignedDigits, SpellsNatural, SpellsInteger, Utf8.Accepts;
    if kind == SignedKind && value.Signed? {
      SignedIff(text, value.signed);
    } else if kind == UnsignedKind && value.Unsigned? {
      DigitsIff(text, value.unsigned);
    } else if kind == StringKind {
      Utf8.RecogniserIsExact(Bytes(text));
    }
  }
}
