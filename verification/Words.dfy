/** Machine words as sequences of bits, least significant first, and their values. */
module Words {

  type Word = seq<bool>

  function Pow2(n: nat): (p: nat)
    ensures p >= 1
  {
    if n == 0 then 1 else 2 * Pow2(n - 1)
  }

  function Value(w: Word): nat {
    if |w| == 0 then 0 else (if w[0] then 1 else 0) + 2 * Value(w[1..])
  }

  /** The low `width` bits of a number. */
  function Bits(n: nat, width: nat): (w: Word)
    ensures |w| == width
  {
    if width == 0 then [] else [n % 2 == 1] + Bits(n / 2, width - 1)
  }

  function Zeros(width: nat): Word {
    seq(width, _ => false)
  }

  function Xor(a: Word, b: Word): (x: Word)
    requires |a| == |b|
    ensures |x| == |a|
  {
    seq(|a|, i requires 0 <= i < |a| => a[i] != b[i])
  }

  function And(a: Word, b: Word): (x: Word)
    requires |a| == |b|
    ensures |x| == |a|
  {
    seq(|a|, i requires 0 <= i < |a| => a[i] && b[i])
  }

  function ShiftRight(a: Word, k: nat): (s: Word)
    ensures |s| == |a|
  {
    seq(|a|, i requires 0 <= i < |a| => i + k < |a| && a[i + k])
  }

  function ShiftLeft(a: Word, k: nat): (s: Word)
    ensures |s| == |a|
  {
    seq(|a|, i requires 0 <= i < |a| => i >= k && a[i - k])
  }

  function RotateLeft(a: Word, k: nat): (r: Word)
    requires k <= |a|
    ensures |r| == |a|
  {
    a[|a| - k..] + a[..|a| - k]
  }

  function RotateRight(a: Word, k: nat): (r: Word)
    requires k <= |a|
    ensures |r| == |a|
  {
    a[k..] + a[..k]
  }

  /** Subtraction of one, borrowing past the low zeros and wrapping around at zero. */
  function Decrement(a: Word): (d: Word)
    ensures |d| == |a|
  {
    if |a| == 0 then a
    else if a[0] then [false] + a[1..]
    else [true] + Decrement(a[1..])
  }

  /** Position of the lowest set bit, or the width if there is none. */
  function TrailingZeros(a: Word): (k: nat)
    ensures k <= |a|
  {
    if |a| == 0 || a[0] then 0 else 1 + TrailingZeros(a[1..])
  }

  lemma {:induction false} PowerSum(a: nat, b: nat)
    ensures Pow2(a) * Pow2(b) == Pow2(a + b)
  {
    if a == 0 {
    } else {
      PowerSum(a - 1, b);
    }
  }

  // ----- Words and their values ---------------------------------------------

  lemma {:induction false} ValueOfBits(n: nat, width: nat)
    requires n < Pow2(width)
    ensures Value(Bits(n, width)) == n
  {
    if width == 0 {
    } else {
      ValueOfBits(n / 2, width - 1);
      assert Bits(n, width)[1..] == Bits(n / 2, width - 1);
    }
  }

  lemma {:induction false} BitsOfValue(w: Word)
    ensures Value(w) < Pow2(|w|) && Bits(Value(w), |w|) == w
  {
    if |w| == 0 {
    } else {
      BitsOfValue(w[1..]);
      assert Value(w) / 2 == Value(w[1..]);
      assert w == [w[0]] + w[1..];
    }
  }

  lemma {:induction false} HighBits(n: nat, width: nat, k: nat)
    requires k <= width
    ensures Bits(n, width)[k..] == Bits(n / Pow2(k), width - k)
  {
    if k == 0 {
    } else {
      HighBits(n / 2, width - 1, k - 1);
      assert Bits(n, width)[1..] == Bits(n / 2, width - 1);
      assert Bits(n, width)[k..] == Bits(n / 2, width - 1)[k - 1..];
      QuotientOfHalf(n, Pow2(k - 1));
    }
  }

  lemma {:induction false} HighValue(w: Word, k: nat)
    requires k <= |w|
    ensures Value(w[k..]) == Value(w) / Pow2(k)
  {
    if k == 0 {
    } else {
      HighValue(w[1..], k - 1);
      assert w[k..] == w[1..][k - 1..];
      assert Value(w) / 2 == Value(w[1..]);
      QuotientOfHalf(Value(w), Pow2(k - 1));
    }
  }

  lemma QuotientOfHalf(n: nat, p: nat)
    requires p >= 1
    ensures (n / 2) / p == n / (2 * p)
  {
    var q := (n / 2) / p;
    var r := n / 2 - p * q;
    assert (n / 2) % p == r;
    assert n == (2 * p) * q + (2 * r + n % 2);
    QuotientIs(n, 2 * p, q, 2 * r + n % 2);
  }

  lemma QuotientIs(n: nat, d: nat, q: nat, r: nat)
    requires d >= 1 && r < d && n == d * q + r
    ensures n / d == q && n % d == r
  {
    var e := n / d - q;
    assert d * e == r - n % d && d * -e == -(d * e);
    if e >= 1 {
      MultipleBound(d, e);
    } else if e <= -1 {
      MultipleBound(d, -e);
    }
  }

  lemma MultipleBound(d: nat, e: int)
    requires e >= 1
    ensures d * e >= d
  {
  }

  lemma {:induction false} ValueOfDecrement(a: Word)
    ensures Value(Decrement(a)) == if Value(a) == 0 then Pow2(|a|) - 1 else Value(a) - 1
  {
    if |a| == 0 {
    } else {
      ValueOfDecrement(a[1..]);
      assert Decrement(a)[1..] == if a[0] then a[1..] else Decrement(a[1..]);
    }
  }

  lemma {:induction false} ZeroValue(a: Word)
    ensures Value(a) == 0 <==> a == Zeros(|a|)
    ensures TrailingZeros(a) == |a| <==> a == Zeros(|a|)
  {
    if |a| == 0 {
    } else {
      ZeroValue(a[1..]);
      assert a == [a[0]] + a[1..];
      assert Zeros(|a|) == [false] + Zeros(|a| - 1);
    }
  }

  lemma {:induction false} LowestBit(a: Word)
    ensures TrailingZeros(a) < |a| ==> a[TrailingZeros(a)]
    ensures forall i :: 0 <= i < TrailingZeros(a) ==> !a[i]
  {
    if |a| > 0 && !a[0] {
      LowestBit(a[1..]);
      assert forall i :: 1 <= i < TrailingZeros(a) ==> a[i] == a[1..][i - 1];
    }
  }

  /** Masking a word with its predecessor clears exactly the lowest set bit. */
  lemma {:induction false} ClearLowest(a: Word)
    requires TrailingZeros(a) < |a|
    ensures And(a, Decrement(a)) == a[TrailingZeros(a) := false]
  {
    if a[0] {
      assert And(a, Decrement(a)) == [false] + a[1..];
    } else {
      var tail := a[1..];
      ClearLowest(tail);
      AndCons(tail, Decrement(tail), true);
      assert a == [false] + tail;
      assert a[TrailingZeros(a) := false] == [false] + tail[TrailingZeros(tail) := false];
    }
  }

  lemma AndCons(a: Word, b: Word, bit: bool)
    requires |a| == |b|
    ensures And([false] + a, [bit] + b) == [false] + And(a, b)
  {
  }
}
