/** Elementary facts about exact reals. */
module Reals {

  function Abs(x: real): real {
    if x < 0.0 then -x else x
  }

  function Square(x: real): real {
    x * x
  }

  lemma ProductSign(a: real, b: real)
    ensures a >= 0.0 && b >= 0.0 ==> a * b >= 0.0
    ensures a * b == 0.0 <==> a == 0.0 || b == 0.0
    ensures a > 0.0 && b > 0.0 ==> a * b > 0.0
    ensures a > 0.0 && a * b > 0.0 ==> b > 0.0
    ensures a <= 0.0 && b <= 0.0 ==> a * b >= 0.0
  {
  }
}
