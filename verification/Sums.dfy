/** Finite sums over an index range, accumulated in the order of a counting loop. */
module Sums {
  import opened Scalars

  ghost function Sum(f: int -> Scalar, lo: int, hi: int): Scalar
    decreases hi - lo
  {
    if hi <= lo then ZERO else Add(Sum(f, lo, hi - 1), f(hi - 1))
  }

  lemma {:induction false} SumCongruent(f: int -> Scalar, g: int -> Scalar, lo: int, hi: int)
    requires forall i :: lo <= i < hi ==> f(i) == g(i)
    ensures Sum(f, lo, hi) == Sum(g, lo, hi)
    decreases hi - lo
  {
    if lo < hi {
      SumCongruent(f, g, lo, hi - 1);
    }
  }

  lemma {:induction false} SumSplits(f: int -> Scalar, lo: int, mid: int, hi: int)
    requires lo <= mid <= hi
    ensures Sum(f, lo, hi) == Add(Sum(f, lo, mid), Sum(f, mid, hi))
    decreases hi - mid
  {
    if mid < hi {
      SumSplits(f, lo, mid, hi - 1);
    }
  }

  lemma {:induction false} SumVanishes(f: int -> Scalar, lo: int, hi: int)
    requires forall i :: lo <= i < hi ==> f(i) == ZERO
    ensures Sum(f, lo, hi) == ZERO
    decreases hi - lo
  {
    if lo < hi {
      SumVanishes(f, lo, hi - 1);
    }
  }

  /** Terms that are zero outside `[lo, hi)` may be added or dropped. */
  lemma {:induction false} SumWidens(f: int -> Scalar, first: int, lo: int, hi: int, last: int)
    requires first <= lo <= hi <= last
    requires forall i :: first <= i < lo || hi <= i < last ==> f(i) == ZERO
    ensures Sum(f, first, last) == Sum(f, lo, hi)
  {
    SumSplits(f, first, lo, last);
    SumSplits(f, lo, hi, last);
    SumVanishes(f, first, lo);
    SumVanishes(f, hi, last);
  }

  lemma ConjugateOfSum(a: Scalar, b: Scalar)
    ensures Conjugate(Add(a, b)) == Add(Conjugate(a), Conjugate(b))
    ensures Conjugate(ZERO) == ZERO
  {
  }

  lemma {:induction false} SumConjugates(f: int -> Scalar, g: int -> Scalar, lo: int, hi: int)
    requires forall i :: lo <= i < hi ==> g(i) == Conjugate(f(i))
    ensures Sum(g, lo, hi) == Conjugate(Sum(f, lo, hi))
    decreases hi - lo
  {
    hide Conjugate, Add;
    if lo < hi {
      SumConjugates(f, g, lo, hi - 1);
      ConjugateOfSum(Sum(f, lo, hi - 1), f(hi - 1));
    } else {
      ConjugateOfSum(ZERO, ZERO);
    }
  }
}
