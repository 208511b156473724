/** The UTF-8 recogniser against the encoding of section 3 of RFC 3629. */
module Utf8 {

  type Bytes = seq<nat>

  // ----- The encoding -------------------------------------------------------

  /** A Unicode scalar value. */
  predicate IsScalar(n: nat) {
    n <= 0x10FFFF && !(0xD800 <= n <= 0xDFFF)
  }

  function Encode(n: nat): (b: Bytes)
    requires IsScalar(n)
    ensures 1 <= |b| <= 4
  {
    if n <= 0x7F then [n]
    else if n <= 0x7FF then [0xC0 + n / 64, 0x80 + n % 64]
    else if n <= 0xFFFF then [0xE0 + n / 4096, 0x80 + n / 64 % 64, 0x80 + n % 64]
    else [0xF0 + n / 262144, 0x80 + n / 4096 % 64, 0x80 + n / 64 % 64, 0x80 + n % 64]
  }

  predicate AreScalars(text: seq<nat>) {
    forall i :: 0 <= i < |text| ==> IsScalar(text[i])
  }

  function EncodeAll(text: seq<nat>): Bytes
    requires AreScalars(text)
  {
    if |text| == 0 then [] else Encode(text[0]) + EncodeAll(text[1..])
  }

  // ----- The recogniser -----------------------------------------------------

  predicate IsContinuation(byte: nat) {
    0x80 <= byte <= 0xBF
  }

  predicate ValidSecondOfThree(first: nat, second: nat) {
    || (first == 0xE0 && 0xA0 <= second <= 0xBF)
    || (first == 0xED && 0x80 <= second <= 0x9F)
    || (((0xE1 <= first <= 0xEC) || (0xEE <= first <= 0xEF)) && IsContinuation(second))
  }

  predicate ValidSecondOfFour(first: nat, second: nat) {
    || (first == 0xF0 && 0x90 <= second <= 0xBF)
    || (first == 0xF4 && 0x80 <= second <= 0x8F)
    || (0xF1 <= first <= 0xF3 && IsContinuation(second))
  }

  /** Width of the character at the start, zero if there is none. */
  function Width(b: Bytes): (w: nat)
    ensures w <= |b|
  {
    if |b| == 0 then 0
    else if b[0] <= 0x7F then 1
    else if 0xC2 <= b[0] <= 0xDF then if |b| >= 2 && IsContinuation(b[1]) then 2 else 0
    else if 0xE0 <= b[0] <= 0xEF then
      if |b| >= 3 && ValidSecondOfThree(b[0], b[1]) && IsContinuation(b[2]) then 3 else 0
    else if 0xF0 <= b[0] <= 0xF4 then
      if |b| >= 4 && ValidSecondOfFour(b[0], b[1]) && IsContinuation(b[2]) && IsContinuation(b[3]) then 4 else 0
    else 0
  }

  function Decoded(b: Bytes): nat
    requires Width(b) > 0
  {
    if Width(b) == 1 then b[0]
    else if Width(b) == 2 then (b[0] - 0xC0) * 64 + (b[1] - 0x80)
    else if Width(b) == 3 then (b[0] - 0xE0) * 4096 + (b[1] - 0x80) * 64 + (b[2] - 0x80)
    else (b[0] - 0xF0) * 262144 + (b[1] - 0x80) * 4096 + (b[2] - 0x80) * 64 + (b[3] - 0x80)
  }

  /** The base-64 digits of a number. */
  lemma Digits(a: nat, b: nat, c: nat, d: nat)
    requires b < 64 && c < 64 && d < 64
    ensures var n := a * 262144 + b * 4096 + c * 64 + d;
      n / 262144 == a && n / 4096 % 64 == b && n / 64 % 64 == c && n % 64 == d
  {
    var n := a * 262144 + b * 4096 + c * 64 + d;
    assert n / 64 == a * 4096 + b * 64 + c;
    assert n / 4096 == a * 64 + b;
  }

  lemma Recombined(n: nat)
    ensures n == (n / 262144) * 262144 + (n / 4096 % 64) * 4096 + (n / 64 % 64) * 64 + n % 64
    ensures n / 4096 == (n / 262144) * 64 + n / 4096 % 64 && n / 64 == (n / 4096) * 64 + n / 64 % 64
  {
    assert n / 4096 / 64 == n / 262144 && n / 64 / 64 == n / 4096;
  }

  lemma TwoBytes(b: Bytes)
    requires Width(b) == 2
    ensures 0x80 <= Decoded(b) <= 0x7FF && Encode(Decoded(b)) == b[..2]
  {
    var x, y := b[0] - 0xC0, b[1] - 0x80;
    assert (x * 64 + y) / 64 == x && (x * 64 + y) % 64 == y;
  }

  lemma ThreeBytes(b: Bytes)
    requires Width(b) == 3
    ensures 0x800 <= Decoded(b) <= 0xFFFF && IsScalar(Decoded(b)) && Encode(Decoded(b)) == b[..3]
  {
    var x, y, z := b[0] - 0xE0, b[1] - 0x80, b[2] - 0x80;
    Digits(0, x, y, z);
    assert (x * 4096 + y * 64 + z) / 4096 == x;
    assert Decoded(b) == x * 4096 + y * 64 + z;
  }

  lemma FourBytes(b: Bytes)
    requires Width(b) == 4
    ensures 0x10000 <= Decoded(b) <= 0x10FFFF && Encode(Decoded(b)) == b[..4]
  {
    var w, x, y, z := b[0] - 0xF0, b[1] - 0x80, b[2] - 0x80, b[3] - 0x80;
    Digits(w, x, y, z);
    assert Decoded(b) == w * 262144 + x * 4096 + y * 64 + z;
  }

  /** An accepted first character is the encoding of a scalar value. */
  lemma {:induction false} FirstCharacterEncodes(b: Bytes)
    requires Width(b) > 0
    ensures IsScalar(Decoded(b)) && Encode(Decoded(b)) == b[..Width(b)]
  {
    if Width(b) == 2 {
      TwoBytes(b);
    } else if Width(b) == 3 {
      ThreeBytes(b);
    } else if Width(b) == 4 {
      FourBytes(b);
    }
  }

  lemma SecondOfThree(n: nat)
    requires IsScalar(n) && 0x800 <= n <= 0xFFFF
    ensures 0xE0 <= 0xE0 + n / 4096 <= 0xEF && ValidSecondOfThree(0xE0 + n / 4096, 0x80 + n / 64 % 64)
  {
    Recombined(n);
  }

  lemma SecondOfFour(n: nat)
    requires 0x10000 <= n <= 0x10FFFF
    ensures 0xF0 <= 0xF0 + n / 262144 <= 0xF4 && ValidSecondOfFour(0xF0 + n / 262144, 0x80 + n / 4096 % 64)
  {
    Recombined(n);
  }

  /** The encoding of a scalar value is accepted as the first character, whatever follows. */
  lemma {:induction false} EncodingIsAccepted(n: nat, rest: Bytes)
    requires IsScalar(n)
    ensures Width(Encode(n) + rest) == |Encode(n)| && Decoded(Encode(n) + rest) == n
  {
    Recombined(n);
    var b := Encode(n) + rest;
    assert forall i :: 0 <= i < |Encode(n)| ==> b[i] == Encode(n)[i];
    if n > 0xFFFF {
      SecondOfFour(n);
      hide ValidSecondOfFour, ValidSecondOfThree;
    } else if n > 0x7FF {
      SecondOfThree(n);
      hide ValidSecondOfFour, ValidSecondOfThree;
    }
  }

  function Accepts(b: Bytes): bool {
    |b| == 0 || (Width(b) > 0 && Accepts(b[Width(b)..]))
  }

  function DecodeAll(b: Bytes): seq<nat>
    requires Accepts(b)
  {
    if |b| == 0 then [] else [Decoded(b)] + DecodeAll(b[Width(b)..])
  }

  /** Every accepted string is the encoding of the scalar values it decodes to. */
  lemma {:induction false} AcceptedIsEncoding(b: Bytes)
    requires Accepts(b)
    ensures AreScalars(DecodeAll(b)) && EncodeAll(DecodeAll(b)) == b
  {
    hide Encode, Width, Decoded;
    if |b| == 0 {
    } else {
      var w := Width(b);
      AcceptedIsEncoding(b[w..]);
      FirstCharacterEncodes(b);
      var rest := DecodeAll(b[w..]);
      assert DecodeAll(b)[1..] == rest;
      assert b == b[..w] + b[w..];
    }
  }

  /** Every encoding is accepted and decodes to what was encoded. */
  lemma {:induction false} EncodingIsDecoded(text: seq<nat>)
    requires AreScalars(text)
    ensures Accepts(EncodeAll(text)) && DecodeAll(EncodeAll(text)) == text
  {
    hide Encode, Width, Decoded;
    if |text| == 0 {
    } else {
      var rest := EncodeAll(text[1..]);
      EncodingIsDecoded(text[1..]);
      EncodingIsAccepted(text[0], rest);
      var b, w := Encode(text[0]) + rest, |Encode(text[0])|;
      assert b[w..] == rest;
      assert text == [text[0]] + text[1..];
    }
  }

  /** Accepts exactly the concatenations of encodings of scalar values. */
  method IsValidUtf8(value: Bytes) returns (valid: bool)
    ensures valid == Accepts(value)
    ensures valid <==> exists text :: AreScalars(text) && EncodeAll(text) == value
  {
    RecogniserIsExact(value);
    hide AreScalars, EncodeAll;
    var index := 0;
    while index < |value|
      invariant index <= |value| && Accepts(value[index..]) == Accepts(value)
    {
      var first := value[index];
      ghost var b := value[index..];
      if first <= 0x7F {
        assert b[1..] == value[index + 1..];
        index := index + 1;
        continue;
      }
      if 0xC2 <= first <= 0xDF {
        if index + 1 >= |value| || !IsContinuation(value[index + 1]) {
          return false;
        }
        assert b[2..] == value[index + 2..];
        index := index + 2;
        continue;
      }
      if 0xE0 <= first <= 0xEF {
        if index + 2 >= |value| {
          return false;
        }
        var second, third := value[index + 1], value[index + 2];
        if !ValidSecondOfThree(first, second) || !IsContinuation(third) {
          return false;
        }
        assert b[3..] == value[index + 3..];
        index := index + 3;
        continue;
      }
      if 0xF0 <= first <= 0xF4 {
        if index + 3 >= |value| {
          return false;
        }
        var second, third, fourth := value[index + 1], value[index + 2], value[index + 3];
        if !ValidSecondOfFour(first, second) || !IsContinuation(third) || !IsContinuation(fourth) {
          return false;
        }
        assert b[4..] == value[index + 4..];
        index := index + 4;
        continue;
      }
      return false;
    }
    return true;
  }

  lemma {:induction false} RecogniserIsExact(value: Bytes)
    ensures Accepts(value) <==> exists text :: AreScalars(text) && EncodeAll(text) == value
  {
    hide Encode, Width, Decoded;
    if Accepts(value) {
      AcceptedIsEncoding(value);
    }
    forall text | AreScalars(text) && EncodeAll(text) == value
      ensures Accepts(value)
    {
      EncodingIsDecoded(text);
    }
  }

  /** Distinct texts have distinct encodings. */
  lemma EncodingIsUnique(a: seq<nat>, b: seq<nat>)
    requires AreScalars(a) && AreScalars(b) && EncodeAll(a) == EncodeAll(b)
    ensures a == b
  {
    EncodingIsDecoded(a);
    EncodingIsDecoded(b);
  }
}
