/** Overflow-checked integer arithmetic over a machine integer type. */
module Checked {
  import opened Results

  /** A machine integer type, given by its limits. */
  datatype IntegerType = IntegerType(minimum: int, maximum: int)

  const INT64 := IntegerType(-0x8000_0000_0000_0000, 0x7FFF_FFFF_FFFF_FFFF)
  const UINT64 := IntegerType(0, 0xFFFF_FFFF_FFFF_FFFF)

  /** Unsigned types start at zero; signed types are two's complement. */
  predicate IsMachineType(t: IntegerType) {
    t.maximum >= 1 && (t.minimum == 0 || t.minimum == -t.maximum - 1)
  }

  predicate InRange(t: IntegerType, value: int) {
    t.minimum <= value <= t.maximum
  }

  /** The exact result when it is representable, and an overflow otherwise. */
  function Exactly(t: IntegerType, value: int): Result<int> {
    if InRange(t, value) then Success(value) else Failure(Overflow)
  }

  /** Division that truncates toward zero. */
  function Truncated(a: int, b: int): int
    requires b != 0
  {
    if a >= 0 then
      if b > 0 then a / b else -(a / -b)
    else
      if b > 0 then -(-a / b) else -a / -b
  }

  function CheckedCast(to: IntegerType, value: int): Result<int> {
    if !InRange(to, value) then Failure(Overflow) else Success(value)
  }

  function CheckedAdd(t: IntegerType, left: int, right: int): Result<int> {
    if t.minimum == 0 then
      if left > t.maximum - right then Failure(Overflow) else Success(left + right)
    else if (right > 0 && left > t.maximum - right) || (right < 0 && left < t.minimum - right) then
      Failure(Overflow)
    else
      Success(left + right)
  }

  function CheckedMultiply(t: IntegerType, left: int, right: int): Result<int> {
    if left == 0 || right == 0 then
      Success(0)
    else if t.minimum == 0 then
      if left > Truncated(t.maximum, right) then Failure(Overflow) else Success(left * right)
    else if (left == -1 && right == t.minimum) || (right == -1 && left == t.minimum) then
      Failure(Overflow)
    else if left > 0 then
      if (right > 0 && left > Truncated(t.maximum, right)) ||
         (right < 0 && right < Truncated(t.minimum, left))
      then Failure(Overflow) else Success(left * right)
    else
      if (right > 0 && left < Truncated(t.minimum, right)) ||
         (right < 0 && left < Truncated(t.maximum, right))
      then Failure(Overflow) else Success(left * right)
  }

  /** The quotient is rounded toward zero: the remainder is smaller than the divisor and
      has the sign of the dividend. */
  lemma TruncatedIsTowardZero(a: int, b: int)
    requires b != 0
    ensures var remainder := a - b * Truncated(a, b);
      && -(if b > 0 then b else -b) < remainder < (if b > 0 then b else -b)
      && (a >= 0 ==> remainder >= 0) && (a <= 0 ==> remainder <= 0)
  {
  }

  /** Addition fails exactly when the sum is not representable. */
  lemma AddIsExact(t: IntegerType, left: int, right: int)
    requires IsMachineType(t) && InRange(t, left) && InRange(t, right)
    ensures CheckedAdd(t, left, right) == Exactly(t, left + right)
  {
  }

  /** For a positive divisor, comparing with a floored quotient compares the product. */
  lemma FloorBound(a: int, n: int, b: int)
    requires b > 0
    ensures a <= n / b <==> a * b <= n
  {
    var q, r := n / b, n % b;
    assert n == q * b + r && 0 <= r < b;
    if a <= q {
      MonotoneProduct(a, q, b);
    } else {
      MonotoneProduct(q + 1, a, b);
    }
  }

  lemma MonotoneProduct(a: int, q: int, b: int)
    requires a <= q && b >= 0
    ensures a * b <= q * b
  {
  }

  /** Each guard of the multiplication compares the product with a limit. */
  lemma {:induction false} GuardIsExact(a: int, limit: int, b: int)
    requires b != 0
    ensures limit >= 0 && b > 0 ==> (a > Truncated(limit, b) <==> a * b > limit)
    ensures limit >= 0 && b < 0 ==> (a < Truncated(limit, b) <==> a * b > limit)
    ensures limit < 0 && b > 0 ==> (a < Truncated(limit, b) <==> a * b < limit)
  {
    if b > 0 {
      FloorBound(a, limit, b);
      FloorBound(-a, -limit, b);
      assert (-a) * b == -(a * b);
    } else {
      FloorBound(-a, limit, -b);
      assert (-a) * (-b) == a * b;
    }
  }

  lemma SignOfProduct(a: int, b: int)
    ensures a >= 0 && b >= 0 ==> a * b >= 0
    ensures a <= 0 && b <= 0 ==> a * b >= 0
    ensures a <= 0 && b >= 0 ==> a * b <= 0
    ensures a >= 0 && b <= 0 ==> a * b <= 0
  {
    if a >= 0 && b >= 0 {
      MonotoneProduct(0, a, b);
    } else if a <= 0 && b <= 0 {
      MonotoneProduct(0, -a, -b);
      assert (-a) * (-b) == a * b;
    } else if a <= 0 {
      MonotoneProduct(a, 0, b);
    } else {
      MonotoneProduct(b, 0, a);
    }
  }

  /** Multiplication fails exactly when the product is not representable,
      for every operand pair of a signed or an unsigned type. */
  lemma {:induction false} MultiplyIsExact(t: IntegerType, left: int, right: int)
    requires IsMachineType(t) && InRange(t, left) && InRange(t, right)
    ensures CheckedMultiply(t, left, right) == Exactly(t, left * right)
  {
    hide Truncated;
    SignOfProduct(left, right);
    if left != 0 && right != 0 {
      var p := left * right;
      assert p == right * left;
      GuardIsExact(left, t.maximum, right);
      if left > 0 && t.minimum < 0 {
        GuardIsExact(right, t.minimum, left);
      } else if t.minimum < 0 {
        GuardIsExact(left, t.minimum, right);
      }
    }
  }
}
