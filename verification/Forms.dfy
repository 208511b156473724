/** Sums of products: inner products of columns and the bilinear and sesquilinear forms of a matrix. */
module Forms {
  import opened Scalars
  import opened Sums
  import opened Triangular

  // ----- Laws of sums -------------------------------------------------------

  lemma AddRegroups(a: Scalar, b: Scalar, c: Scalar, d: Scalar)
    ensures Add(Add(a, b), Add(c, d)) == Add(Add(a, c), Add(b, d))
    ensures Add(ZERO, ZERO) == ZERO
  {
  }

  lemma {:induction false} SumAdds(f: int -> Scalar, g: int -> Scalar, h: int -> Scalar, lo: int, hi: int)
    requires forall i :: lo <= i < hi ==> h(i) == Add(f(i), g(i))
    ensures Sum(h, lo, hi) == Add(Sum(f, lo, hi), Sum(g, lo, hi))
    decreases hi - lo
  {
    hide Add;
    AddRegroups(ZERO, ZERO, ZERO, ZERO);
    if lo < hi {
      SumAdds(f, g, h, lo, hi - 1);
      AddRegroups(Sum(f, lo, hi - 1), Sum(g, lo, hi - 1), f(hi - 1), g(hi - 1));
    }
  }

  lemma AddDistributes(a: Scalar, x: Scalar, y: Scalar)
    ensures Mul(a, Add(x, y)) == Add(Mul(a, x), Mul(a, y))
    ensures Mul(a, ZERO) == ZERO
  {
  }

  lemma {:induction false} SumScales(a: Scalar, f: int -> Scalar, g: int -> Scalar, lo: int, hi: int)
    requires forall i :: lo <= i < hi ==> g(i) == Mul(a, f(i))
    ensures Sum(g, lo, hi) == Mul(a, Sum(f, lo, hi))
    decreases hi - lo
  {
    hide Mul, Add;
    AddDistributes(a, ZERO, ZERO);
    if lo < hi {
      SumScales(a, f, g, lo, hi - 1);
      AddDistributes(a, Sum(f, lo, hi - 1), f(hi - 1));
    }
  }

  ghost function Along(f: (int, int) -> Scalar, i: int): int -> Scalar {
    k => f(i, k)
  }

  ghost function Across(f: (int, int) -> Scalar, k: int): int -> Scalar {
    i => f(i, k)
  }

  ghost function RowSums(f: (int, int) -> Scalar, n: int): int -> Scalar {
    i => Sum(Along(f, i), 0, n)
  }

  ghost function ColumnSums(f: (int, int) -> Scalar, m: int): int -> Scalar {
    k => Sum(Across(f, k), 0, m)
  }

  /** A double sum may be taken in either order. */
  lemma {:induction false} SumsExchange(f: (int, int) -> Scalar, m: nat, n: nat)
    ensures Sum(RowSums(f, n), 0, m) == Sum(ColumnSums(f, m), 0, n)
  {
    hide Add;
    if m == 0 {
      SumVanishes(ColumnSums(f, 0), 0, n);
    } else {
      SumsExchange(f, m - 1, n);
      SumAdds(ColumnSums(f, m - 1), Along(f, m - 1), ColumnSums(f, m), 0, n);
    }
  }

  // ----- Inner products -----------------------------------------------------

  ghost function PairTerm(conjugate: bool, y: Column, x: Column): int -> Scalar {
    k => Mul(MaybeConjugate(conjugate, y(k)), x(k))
  }

  /** The sum of `y_k x_k`, with the entries of `y` conjugated on request. */
  ghost function Inner(conjugate: bool, y: Column, x: Column, n: int): Scalar {
    Sum(PairTerm(conjugate, y, x), 0, n)
  }

  /** The operator applied to a column. */
  ghost function Image(t: Operator, x: Column, n: int): Column {
    i => Applied(t, x, i, n)
  }

  lemma ConjugatedLaws(conjugate: bool, a: Scalar, b: Scalar)
    ensures MaybeConjugate(conjugate, Mul(a, b)) == Mul(MaybeConjugate(conjugate, a), MaybeConjugate(conjugate, b))
    ensures MaybeConjugate(conjugate, Add(a, b)) == Add(MaybeConjugate(conjugate, a), MaybeConjugate(conjugate, b))
    ensures MaybeConjugate(conjugate, MaybeConjugate(conjugate, a)) == a
    ensures MaybeConjugate(conjugate, ZERO) == ZERO
  {
    ConjugateMul(a, b);
  }

  lemma {:induction false} ConjugatedSum(conjugate: bool, f: int -> Scalar, g: int -> Scalar, lo: int, hi: int)
    requires forall i :: lo <= i < hi ==> g(i) == MaybeConjugate(conjugate, f(i))
    ensures Sum(g, lo, hi) == MaybeConjugate(conjugate, Sum(f, lo, hi))
  {
    if conjugate {
      SumConjugates(f, g, lo, hi);
    } else {
      SumCongruent(g, f, lo, hi);
    }
  }

  lemma InnerScales(conjugate: bool, alpha: Scalar, y: Column, x: Column, x': Column, n: int)
    requires forall k :: 0 <= k < n ==> x'(k) == Mul(alpha, x(k))
    ensures Inner(conjugate, y, x', n) == Mul(alpha, Inner(conjugate, y, x, n))
  {
    hide Mul;
    var f, g := PairTerm(conjugate, y, x), PairTerm(conjugate, y, x');
    forall k | 0 <= k < n
      ensures g(k) == Mul(alpha, f(k))
    {
      var c := MaybeConjugate(conjugate, y(k));
      MulAssociates(c, alpha, x(k));
      MulCommutes(c, alpha);
      MulAssociates(alpha, c, x(k));
    }
    SumScales(alpha, f, g, 0, n);
  }

  lemma InnerScalesLeft(conjugate: bool, beta: Scalar, y: Column, y': Column, x: Column, n: int)
    requires forall k :: 0 <= k < n ==> y'(k) == Mul(beta, y(k))
    ensures Inner(conjugate, y', x, n) == Mul(MaybeConjugate(conjugate, beta), Inner(conjugate, y, x, n))
  {
    hide Mul, MaybeConjugate;
    var f, g := PairTerm(conjugate, y, x), PairTerm(conjugate, y', x);
    var scale := MaybeConjugate(conjugate, beta);
    forall k | 0 <= k < n
      ensures g(k) == Mul(scale, f(k))
    {
      ConjugatedLaws(conjugate, beta, y(k));
      MulAssociates(scale, MaybeConjugate(conjugate, y(k)), x(k));
    }
    SumScales(scale, f, g, 0, n);
  }

  // ----- Adjoint operators --------------------------------------------------

  /** Reflecting `t`, and conjugating on request, gives `s`. */
  ghost predicate AreAdjoint(conjugate: bool, s: Operator, t: Operator, n: int) {
    forall i, k :: 0 <= i < n && 0 <= k < n ==> s(i, k) == MaybeConjugate(conjugate, t(k, i))
  }

  ghost function Triple(conjugate: bool, y: Column, s: Operator, x: Column): (int, int) -> Scalar {
    (i: int, k: int) => Mul(MaybeConjugate(conjugate, y(i)), Mul(s(i, k), x(k)))
  }

  lemma {:induction false} LeftTriple(conjugate: bool, y: Column, s: Operator, x: Column, n: nat, i: int)
    ensures PairTerm(conjugate, y, Image(s, x, n))(i) == RowSums(Triple(conjugate, y, s, x), n)(i)
  {
    hide Mul;
    var f, g := Term(s, x, i), Along(Triple(conjugate, y, s, x), i);
    SumScales(MaybeConjugate(conjugate, y(i)), f, g, 0, n);
  }

  lemma Rearranged(a: Scalar, b: Scalar, c: Scalar)
    ensures Mul(c, Mul(b, a)) == Mul(a, Mul(b, c))
  {
    hide Mul;
    MulAssociates(c, b, a);
    MulCommutes(c, b);
    MulCommutes(Mul(b, c), a);
  }

  lemma {:induction false} RightTriple(
      conjugate: bool, y: Column, s: Operator, t: Operator, x: Column, n: nat, k: int)
    requires AreAdjoint(conjugate, s, t, n) && 0 <= k < n
    ensures PairTerm(conjugate, Image(t, y, n), x)(k) == ColumnSums(Triple(conjugate, y, s, x), n)(k)
  {
    hide Mul, MaybeConjugate;
    var f, g := Term(t, y, k), Across(Triple(conjugate, y, s, x), k);
    var h := (i: int) => MaybeConjugate(conjugate, f(i));
    ConjugatedSum(conjugate, f, h, 0, n);
    forall i | 0 <= i < n
      ensures g(i) == Mul(x(k), h(i))
    {
      assert s(i, k) == MaybeConjugate(conjugate, t(k, i));
      ConjugatedLaws(conjugate, t(k, i), y(i));
      Rearranged(x(k), s(i, k), MaybeConjugate(conjugate, y(i)));
      MulCommutes(s(i, k), x(k));
    }
    SumScales(x(k), h, g, 0, n);
    MulCommutes(x(k), Sum(h, 0, n));
  }

  /** An operator may be moved to the other side of an inner product as its adjoint. */
  lemma {:induction false} AdjointMoves(
      conjugate: bool, s: Operator, t: Operator, y: Column, x: Column, n: nat)
    requires AreAdjoint(conjugate, s, t, n)
    ensures Inner(conjugate, y, Image(s, x, n), n) == Inner(conjugate, Image(t, y, n), x, n)
  {
    hide Mul, MaybeConjugate, AreAdjoint;
    var f := Triple(conjugate, y, s, x);
    forall i | 0 <= i < n
      ensures PairTerm(conjugate, y, Image(s, x, n))(i) == RowSums(f, n)(i)
    {
      LeftTriple(conjugate, y, s, x, n, i);
    }
    forall k | 0 <= k < n
      ensures PairTerm(conjugate, Image(t, y, n), x)(k) == ColumnSums(f, n)(k)
    {
      RightTriple(conjugate, y, s, t, x, n, k);
    }
    SumCongruent(PairTerm(conjugate, y, Image(s, x, n)), RowSums(f, n), 0, n);
    SumCongruent(PairTerm(conjugate, Image(t, y, n), x), ColumnSums(f, n), 0, n);
    SumsExchange(f, n, n);
  }

  // ----- Forms of a matrix --------------------------------------------------

  /** The sum of `w_i a_ij z_j`, with the entries of `w` conjugated on request. */
  ghost function FormOf(conjugate: bool, w: Column, a: Operator, z: Column, n: int): Scalar {
    Inner(conjugate, w, Image(a, z, n), n)
  }

  lemma InnerAdds(conjugate: bool, w: Column, x: Column, y: Column, s: Column, n: int)
    requires forall k :: 0 <= k < n ==> s(k) == Add(x(k), y(k))
    ensures Inner(conjugate, w, s, n) == Add(Inner(conjugate, w, x, n), Inner(conjugate, w, y, n))
  {
    hide Mul, Add, MaybeConjugate;
    forall k | 0 <= k < n
      ensures PairTerm(conjugate, w, s)(k) == Add(PairTerm(conjugate, w, x)(k), PairTerm(conjugate, w, y)(k))
    {
      AddDistributes(MaybeConjugate(conjugate, w(k)), x(k), y(k));
    }
    SumAdds(PairTerm(conjugate, w, x), PairTerm(conjugate, w, y), PairTerm(conjugate, w, s), 0, n);
  }

  lemma AddMul(a: Scalar, b: Scalar, z: Scalar)
    ensures Mul(Add(a, b), z) == Add(Mul(a, z), Mul(b, z))
  {
    hide Mul, Add;
    MulCommutes(Add(a, b), z);
    AddDistributes(z, a, b);
    MulCommutes(a, z);
    MulCommutes(b, z);
  }

  /** The form of a sum of matrices. */
  lemma {:induction false} FormAdds(
      conjugate: bool, w: Column, a: Operator, b: Operator, s: Operator, z: Column, n: int)
    requires forall i, j :: 0 <= i < n && 0 <= j < n ==> s(i, j) == Add(a(i, j), b(i, j))
    ensures FormOf(conjugate, w, s, z, n) == Add(FormOf(conjugate, w, a, z, n), FormOf(conjugate, w, b, z, n))
  {
    hide Mul, Add, Inner;
    forall i | 0 <= i < n
      ensures Image(s, z, n)(i) == Add(Image(a, z, n)(i), Image(b, z, n)(i))
    {
      forall j | 0 <= j < n
        ensures Term(s, z, i)(j) == Add(Term(a, z, i)(j), Term(b, z, i)(j))
      {
        AddMul(a(i, j), b(i, j), z(j));
      }
      SumAdds(Term(a, z, i), Term(b, z, i), Term(s, z, i), 0, n);
    }
    InnerAdds(conjugate, w, Image(a, z, n), Image(b, z, n), Image(s, z, n), n);
  }

  /** The form of a multiple of a matrix. */
  lemma {:induction false} FormScales(
      conjugate: bool, w: Column, alpha: Scalar, a: Operator, s: Operator, z: Column, n: int)
    requires forall i, j :: 0 <= i < n && 0 <= j < n ==> s(i, j) == Mul(alpha, a(i, j))
    ensures FormOf(conjugate, w, s, z, n) == Mul(alpha, FormOf(conjugate, w, a, z, n))
  {
    hide Mul, Inner;
    forall i | 0 <= i < n
      ensures Image(s, z, n)(i) == Mul(alpha, Image(a, z, n)(i))
    {
      forall j | 0 <= j < n
        ensures Term(s, z, i)(j) == Mul(alpha, Term(a, z, i)(j))
      {
        MulAssociates(alpha, a(i, j), z(j));
      }
      SumScales(alpha, Term(a, z, i), Term(s, z, i), 0, n);
    }
    InnerScales(conjugate, alpha, w, Image(a, z, n), Image(s, z, n), n);
  }

  lemma {:induction false} FormCongruent(conjugate: bool, w: Column, a: Operator, b: Operator, z: Column, n: int)
    requires forall i, j :: 0 <= i < n && 0 <= j < n ==> a(i, j) == b(i, j)
    ensures FormOf(conjugate, w, a, z, n) == FormOf(conjugate, w, b, z, n)
  {
    hide Mul, Inner, MaybeConjugate;
    forall i | 0 <= i < n
      ensures Image(a, z, n)(i) == Image(b, z, n)(i)
    {
      SumCongruent(Term(a, z, i), Term(b, z, i), 0, n);
    }
    InnerCongruent(conjugate, w, w, Image(a, z, n), Image(b, z, n), n);
  }

  lemma InnerCongruent(conjugate: bool, w: Column, w': Column, x: Column, x': Column, n: int)
    requires forall k :: 0 <= k < n ==> w(k) == w'(k) && x(k) == x'(k)
    ensures Inner(conjugate, w, x, n) == Inner(conjugate, w', x', n)
  {
    hide Mul, MaybeConjugate;
    SumCongruent(PairTerm(conjugate, w, x), PairTerm(conjugate, w', x'), 0, n);
  }

  lemma OuterRegroups(alpha: Scalar, u: Scalar, v: Scalar, z: Scalar, p: Scalar, q: Scalar)
    ensures Mul(Mul(Mul(alpha, u), v), z) == Mul(Mul(alpha, u), Mul(v, z))
    ensures Mul(Mul(alpha, u), p) == Mul(Mul(alpha, p), u)
    ensures Mul(Mul(alpha, p), q) == Mul(alpha, Mul(q, p))
  {
    hide Mul;
    MulAssociates(Mul(alpha, u), v, z);
    MulAssociates(alpha, u, p);
    MulCommutes(u, p);
    MulAssociates(alpha, p, u);
    MulAssociates(alpha, p, q);
    MulCommutes(p, q);
  }

  /** The form of `alpha u v*` is alpha times the two inner products. */
  lemma {:induction false} FormOfOuter(
      conjugate: bool, alpha: Scalar, w: Column, u: Column, v: Column, z: Column, g: Operator, n: int)
    requires forall i, j :: 0 <= i < n && 0 <= j < n ==>
      g(i, j) == Mul(Mul(alpha, u(i)), MaybeConjugate(conjugate, v(j)))
    ensures FormOf(conjugate, w, g, z, n)
            == Mul(alpha, Mul(Inner(conjugate, w, u, n), Inner(conjugate, v, z, n)))
  {
    hide Mul, MaybeConjugate;
    var p := Inner(conjugate, v, z, n);
    forall i | 0 <= i < n
      ensures Image(g, z, n)(i) == Mul(Mul(alpha, p), u(i))
    {
      var f := PairTerm(conjugate, v, z);
      forall j | 0 <= j < n
        ensures Term(g, z, i)(j) == Mul(Mul(alpha, u(i)), f(j))
      {
        OuterRegroups(alpha, u(i), MaybeConjugate(conjugate, v(j)), z(j), p, p);
      }
      SumScales(Mul(alpha, u(i)), f, Term(g, z, i), 0, n);
      OuterRegroups(alpha, u(i), p, p, p, p);
    }
    InnerScales(conjugate, Mul(alpha, p), w, u, Image(g, z, n), n);
    OuterRegroups(alpha, p, p, p, p, Inner(conjugate, w, u, n));
  }

  // ----- Sums of matrices ---------------------------------------------------

  /** Exchanging the columns of an inner product conjugates it. */
  lemma {:induction false} InnerReverses(conjugate: bool, x: Column, y: Column, n: int)
    ensures Inner(conjugate, y, x, n) == MaybeConjugate(conjugate, Inner(conjugate, x, y, n))
  {
    hide Mul, MaybeConjugate;
    var f, g := PairTerm(conjugate, x, y), PairTerm(conjugate, y, x);
    forall k | 0 <= k < n
      ensures g(k) == MaybeConjugate(conjugate, f(k))
    {
      ConjugatedLaws(conjugate, MaybeConjugate(conjugate, x(k)), y(k));
      ConjugatedLaws(conjugate, x(k), y(k));
      MulCommutes(MaybeConjugate(conjugate, y(k)), x(k));
    }
    ConjugatedSum(conjugate, f, g, 0, n);
  }

  ghost function EntryOf(f: int -> Operator, r: int, c: int): int -> Scalar {
    k => f(k)(r, c)
  }

  /** The sum of the first `m` matrices. */
  ghost function Total(f: int -> Operator, m: int): Operator {
    (r: int, c: int) => Sum(EntryOf(f, r, c), 0, m)
  }

  ghost function FormTerm(conjugate: bool, w: Column, f: int -> Operator, z: Column, n: int): int -> Scalar {
    k => FormOf(conjugate, w, f(k), z, n)
  }

  lemma {:induction false} FormOfNothing(conjugate: bool, w: Column, a: Operator, z: Column, n: int)
    requires forall i, j :: 0 <= i < n && 0 <= j < n ==> a(i, j) == ZERO
    ensures FormOf(conjugate, w, a, z, n) == ZERO
  {
    hide Mul, MaybeConjugate;
    forall i | 0 <= i < n
      ensures PairTerm(conjugate, w, Image(a, z, n))(i) == ZERO
    {
      forall j | 0 <= j < n
        ensures Term(a, z, i)(j) == ZERO
      {
        ZeroTimes(z(j));
      }
      SumVanishes(Term(a, z, i), 0, n);
      AddDistributes(MaybeConjugate(conjugate, w(i)), ZERO, ZERO);
    }
    SumVanishes(PairTerm(conjugate, w, Image(a, z, n)), 0, n);
  }

  /** The form of a sum of any number of matrices. */
  lemma {:induction false} FormOfTotal(conjugate: bool, w: Column, f: int -> Operator, z: Column, n: int, m: nat)
    ensures FormOf(conjugate, w, Total(f, m), z, n) == Sum(FormTerm(conjugate, w, f, z, n), 0, m)
  {
    hide FormOf, Add;
    if m == 0 {
      FormOfNothing(conjugate, w, Total(f, 0), z, n);
    } else {
      FormOfTotal(conjugate, w, f, z, n, m - 1);
      FormAdds(conjugate, w, Total(f, m - 1), f(m - 1), Total(f, m), z, n);
    }
  }
}
