/**
 The element type of the dense kernels in exact arithmetic.

 The kernels are instantiated for real and for complex elements.  A complex
 element is a pair of reals; a real element is the pair whose imaginary part
 is zero, and conjugation is the identity exactly on those.  Rounding is not
 modelled.
 */
module Scalars {
  import opened Reals

  datatype Scalar = Scalar(re: real, im: real)

  const ZERO := Scalar(0.0, 0.0)
  const ONE := Scalar(1.0, 0.0)

  function Add(a: Scalar, b: Scalar): Scalar {
    Scalar(a.re + b.re, a.im + b.im)
  }

  function Sub(a: Scalar, b: Scalar): Scalar {
    Scalar(a.re - b.re, a.im - b.im)
  }

  function Mul(a: Scalar, b: Scalar): Scalar {
    Scalar(a.re * b.re - a.im * b.im, a.re * b.im + a.im * b.re)
  }

  function Conjugate(a: Scalar): Scalar {
    Scalar(a.re, -a.im)
  }

  function MaybeConjugate(conjugate: bool, a: Scalar): Scalar {
    if conjugate then Conjugate(a) else a
  }

  function RealPart(a: Scalar): Scalar {
    Scalar(a.re, 0.0)
  }

  function SquaredModulus(a: Scalar): real {
    Square(a.re) + Square(a.im)
  }

  function Product(x: real, y: real): real {
    x * y
  }

  lemma ProductPositive(x: real, y: real)
    requires x > 0.0 && y > 0.0
    ensures Product(x, y) > 0.0
  {
  }

  lemma SquareSign(x: real)
    ensures Square(x) >= 0.0
    ensures x != 0.0 ==> Square(x) > 0.0
  {
    if x > 0.0 {
      ProductPositive(x, x);
      assert Square(x) == Product(x, x);
    } else if x < 0.0 {
      ProductPositive(-x, -x);
      assert Square(x) == Product(-x, -x);
    }
  }

  lemma SquaredModulusPositive(a: Scalar)
    requires a != ZERO
    ensures SquaredModulus(a) > 0.0
  {
    assert a.re != 0.0 || a.im != 0.0;
    SquareSign(a.re);
    SquareSign(a.im);
  }

  /** Division.  The quotient by zero, which the elements' own type leaves to
      infinities, has the value zero here and no contract relies on it. */
  function Div(a: Scalar, b: Scalar): Scalar {
    if b == ZERO then ZERO else
      SquaredModulusPositive(b);
      var d := SquaredModulus(b);
      var n := Mul(a, Conjugate(b));
      Scalar(n.re / d, n.im / d)
  }

  predicate IsReal(a: Scalar) {
    a.im == 0.0
  }

  lemma MulCommutes(a: Scalar, b: Scalar)
    ensures Mul(a, b) == Mul(b, a)
  {
  }

  lemma MulAssociates(a: Scalar, b: Scalar, c: Scalar)
    ensures Mul(a, Mul(b, c)) == Mul(Mul(a, b), c)
  {
  }

  lemma MulDistributesSub(a: Scalar, b: Scalar, c: Scalar)
    ensures Mul(a, Sub(b, c)) == Sub(Mul(a, b), Mul(a, c))
  {
  }

  lemma ConjugateMul(a: Scalar, b: Scalar)
    ensures Conjugate(Mul(a, b)) == Mul(Conjugate(a), Conjugate(b))
  {
  }

  lemma QuotientIs(n: real, d: real, q: real)
    requires d != 0.0 && q * d == n
    ensures n / d == q
  {
  }

  lemma CancelReal(d: real, x: real, y: real)
    requires d != 0.0 && d * x == d * y
    ensures x == y
  {
  }

  lemma ScaledDifference(d: real, x: real, p: real, y: real, q: real)
    ensures d * (x * p - y * q) == x * (p * d) - y * (q * d)
  {
    assert d * (x * p) == x * (p * d) && d * (y * q) == y * (q * d);
  }

  /** The numerators of a quotient, multiplied out again. */
  lemma Numerators(ar: real, ai: real, br: real, bi: real)
    ensures br * (ar * br + ai * bi) - bi * (ai * br - ar * bi) == (br * br + bi * bi) * ar
    ensures br * (ai * br - ar * bi) + bi * (ar * br + ai * bi) == (br * br + bi * bi) * ai
  {
  }

  lemma {:induction false} DividedProduct(a: Scalar, b: Scalar, p: real, q: real)
    requires b != ZERO
    requires p * SquaredModulus(b) == a.re * b.re + a.im * b.im
    requires q * SquaredModulus(b) == a.im * b.re - a.re * b.im
    ensures Mul(b, Scalar(p, q)) == a
  {
    SquaredModulusPositive(b);
    var d := SquaredModulus(b);
    Numerators(a.re, a.im, b.re, b.im);
    ScaledDifference(d, b.re, p, b.im, q);
    CancelReal(d, b.re * p - b.im * q, a.re);
    ScaledDifference(d, b.re, q, -b.im, p);
    CancelReal(d, b.re * q + b.im * p, a.im);
  }

  /** Division is the right inverse of multiplication. */
  lemma {:induction false} DivideThenMultiply(a: Scalar, b: Scalar)
    requires b != ZERO
    ensures Mul(b, Div(a, b)) == a
  {
    SquaredModulusPositive(b);
    var n := Mul(a, Conjugate(b));
    DividedProduct(a, b, n.re / SquaredModulus(b), n.im / SquaredModulus(b));
  }

  /** A product vanishes only when a factor does. */
  lemma {:induction false} NoZeroDivisors(a: Scalar, b: Scalar)
    requires a != ZERO && Mul(a, b) == ZERO
    ensures b == ZERO
  {
    SquaredModulusPositive(a);
    assert Mul(Conjugate(a), Mul(a, b)) == Scalar(SquaredModulus(a) * b.re, SquaredModulus(a) * b.im);
  }

  lemma Cancel(a: Scalar, b: Scalar, c: Scalar)
    requires a != ZERO && Mul(a, b) == Mul(a, c)
    ensures b == c
  {
    MulDistributesSub(a, b, c);
    NoZeroDivisors(a, Sub(b, c));
  }

  /** The real elements are closed under every operation the kernels use, and
      conjugation fixes exactly the real elements. */
  lemma {:induction false} RealElementsClosed(a: Scalar, b: Scalar)
    requires IsReal(a) && IsReal(b)
    ensures IsReal(Add(a, b)) && IsReal(Sub(a, b)) && IsReal(Mul(a, b)) && IsReal(Div(a, b))
    ensures Mul(a, b).re == a.re * b.re
    ensures b != ZERO ==> Div(a, b).re == a.re / b.re
    ensures Conjugate(a) == a && RealPart(a) == a
  {
    if b != ZERO {
      assert b.re != 0.0;
      SquareSign(b.re);
      var (x, y) := (a.re, b.re);
      var q := x / y;
      assert q * y == x;
      assert q * (y * y) == x * y;
      assert Square(y) == y * y && q * Square(y) == x * y;
      QuotientIs(x * y, Square(y), q);
      QuotientIs(0.0, Square(y), 0.0);
    }
  }
}
