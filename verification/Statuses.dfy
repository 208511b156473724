/**
 The checks of the kernels as decision tables: for every refusal, the plain
 condition under which it is the one reported.
 */
module Statuses {
  import opened Results
  import opened Storage
  import opened Operands
  import opened Lines
  import opened Updates
  import opened RankK
  import opened VectorOperands
  import Level2
  import Level3
  import RotationKernels
  import NormKernels
  import Views

  // ----- Overlap ------------------------------------------------------------

  /** Element `o` of the memory lies between the lowest and the highest element of a view. */
  predicate Reaches(view: View, o: int) {
    view.base + Lowest(view.form) <= o < view.base + Lowest(view.form) + Span(view.form)
  }

  /** The overlap test is positive exactly when some element lies in the reach of both views. */
  lemma OverlapIff(left: View, right: View)
    ensures Overlap(left, right) <==> exists o :: Reaches(left, o) && Reaches(right, o)
  {
    var a, b := left.base + Lowest(left.form), right.base + Lowest(right.form);
    hide Lowest, Span;
    if Overlap(left, right) {
      var o := if a < b then b else a;
      assert Reaches(left, o) && Reaches(right, o);
    }
  }

  predicate Apart(left: View, right: View) {
    !Overlap(left, right)
  }

  /** Memory that the Level 2 and Level 3 kernels may touch. */
  predicate OnHost(view: View) {
    view.space in {Host, PinnedHost}
  }

  // ----- Triangular kernels -------------------------------------------------

  lemma TriangularVectorStatus(backend: Backend, access: View, vector: View)
    requires Level2.IsTriangularForm(access.form) && vector.form.Vector?
    ensures var status, square := Level2.TriangularStatus(backend, access, vector), IsSquare(access);
      var serial, host := backend == Serial, OnHost(access) && OnHost(vector);
      && (status == Failed(Unsupported) <==> square && !serial)
      && (status == Failed(MemoryAccess) <==> square && serial && !host)
      && (status == Failed(Shape) <==> !square || (serial && host && vector.form.size != Order(access)))
      && (status == Failed(InvalidArgument) <==>
            square && serial && host && vector.form.size == Order(access) && !Apart(access, vector))
      && (status == Ok <==> square && serial && host && vector.form.size == Order(access) && Apart(access, vector))
  {
    hide Overlap;
  }

  lemma TriangularMatrixStatus(backend: Backend, side: Side, triangular: View, matrix: View)
    requires triangular.form.Full? && matrix.form.Full?
    ensures var status := Level3.TriangularMatrixStatus(backend, side, triangular, matrix);
      var serial, host := backend == Serial, OnHost(triangular) && OnHost(matrix);
      var shaped := triangular.form.rows == triangular.form.columns
                    && triangular.form.rows == if side == Left then matrix.form.rows else matrix.form.columns;
      var alike := triangular.form.layout == matrix.form.layout;
      && (status == Failed(Unsupported) <==> !serial)
      && (status == Failed(MemoryAccess) <==> serial && !host)
      && (status == Failed(Shape) <==> serial && host && alike && !shaped)
      && (status == Failed(InvalidArgument) <==>
            serial && host && (!alike || (shaped && !Apart(triangular, matrix))))
      && (status == Ok <==> serial && host && alike && shaped && Apart(triangular, matrix))
  {
    hide Overlap;
  }

  // ----- Rank updates -------------------------------------------------------

  lemma RankUpdateStatusIs(backend: Backend, x: View, y: View, matrix: View)
    requires x.form.Vector? && y.form.Vector? && IsUpdateForm(matrix.form)
    ensures var status, square := RankUpdateStatus(backend, x, y, matrix), IsSquare(matrix);
      var serial, host := backend == Serial, OnHost(x) && OnHost(y) && OnHost(matrix);
      var apart := Apart(x, matrix) && Apart(y, matrix);
      && (status == Failed(Unsupported) <==> square && !serial)
      && (status == Failed(MemoryAccess) <==> square && serial && !host)
      && (status == Failed(InvalidArgument) <==> square && serial && host && !apart)
      && (status == Failed(Shape) <==>
            !square || (serial && host && apart && !(x.form.size == y.form.size == Order(matrix))))
      && (status == Ok <==> square && serial && host && apart && x.form.size == y.form.size == Order(matrix))
  {
    hide Overlap;
  }

  lemma RankKStatusIs(
      backend: Backend, complex: bool, hermitian: bool, transpose: Transpose, left: View, right: View, output: View)
    requires left.form.Full? && right.form.Full? && output.form.Full?
    ensures var status := RankKStatus(backend, complex, hermitian, transpose, left, right, output);
      var allowed := if hermitian then transpose != Transposed else transpose == ConjugateTransposed ==> !complex;
      var serial, host := backend == Serial, OnHost(left) && OnHost(right) && OnHost(output);
      var apart := Apart(left, output) && Apart(right, output);
      var alike := left.form.layout == right.form.layout == output.form.layout;
      var shaped :=
        && left.form.rows == right.form.rows && left.form.columns == right.form.columns
        && output.form.rows == output.form.columns
        && output.form.rows == if transpose == NoTranspose then left.form.rows else left.form.columns;
      && (status == Failed(Unsupported) <==> allowed && !serial)
      && (status == Failed(MemoryAccess) <==> allowed && serial && !host)
      && (status == Failed(InvalidArgument) <==> !allowed || (serial && host && !(alike && apart)))
      && (status == Failed(Shape) <==> allowed && serial && host && alike && apart && !shaped)
      && (status == Ok <==> allowed && serial && host && alike && apart && shaped)
  {
    hide Overlap;
  }

  // ----- Level 1 ------------------------------------------------------------

  /** Plain host memory and the expected number of elements. */
  predicate IsSized(vector: View, size: int)
    requires vector.form.Vector?
  {
    vector.space == Host && vector.form.size == size
  }

  lemma ReductionStatusIs(backend: Backend, operand: View, result: View, overlap: bool)
    requires operand.form.Vector? && result.form.Vector?
    ensures var status := NormKernels.ReductionStatus(backend, operand, result, overlap);
      var serial, host := backend == Serial, operand.space == Host && result.space == Host;
      && (status == Failed(Unsupported) <==> !serial)
      && (status == Failed(MemoryAccess) <==> serial && !host)
      && (status == Failed(Shape) <==> serial && host && result.form.size != 1)
      && (status == Failed(InvalidArgument) <==> serial && host && result.form.size == 1 && overlap)
      && (status == Ok <==> serial && host && result.form.size == 1 && !overlap)
  {
  }

  /** A complex operand reaches two cells for every element of its span. */
  lemma ComplexOverlapIff(operand: View, result: View)
    ensures NormKernels.ComplexOverlap(operand, result) <==>
            exists o ::
              && operand.base + 2 * Lowest(operand.form) <= o
              && o < operand.base + 2 * (Lowest(operand.form) + Span(operand.form))
              && Reaches(result, o)
  {
    var a, b := operand.base + 2 * Lowest(operand.form), result.base + Lowest(result.form);
    hide Lowest, Span;
    if NormKernels.ComplexOverlap(operand, result) {
      assert Reaches(result, if a < b then b else a);
    }
  }

  lemma ViewStatusIs(backend: Backend, view: Views.DenseView)
    ensures var status := NormKernels.ViewStatus(backend, view);
      var serial := backend == Serial;
      var readable := view.space == Host && (view.mapping.requiredSpan != 0 ==> view.data != 0);
      && (status == Failed(Unsupported) <==> !serial)
      && (status == Failed(MemoryAccess) <==> serial && !readable)
      && (status == Ok <==> serial && readable)
  {
  }

  /** The first of several operands that is not plain host memory of its size decides. */
  lemma {:induction false} FirstOperandDecides(vectors: seq<View>, sizes: seq<int>, statuses: seq<Status>, k: nat)
    requires |vectors| == |sizes| == |statuses| && k < |vectors|
    requires forall i :: 0 <= i < |vectors| ==> vectors[i].form.Vector?
    requires forall i :: 0 <= i < |vectors| ==> statuses[i] == ExactSizeStatus(vectors[i], sizes[i])
    requires (forall i :: 0 <= i < k ==> IsSized(vectors[i], sizes[i])) && !IsSized(vectors[k], sizes[k])
    ensures FirstFailure(statuses) == Failed(if vectors[k].space != Host then MemoryAccess else Shape)
  {
    if k > 0 {
      assert IsSized(vectors[0], sizes[0]);
      FirstOperandDecides(vectors[1..], sizes[1..], statuses[1..], k - 1);
    }
  }

  lemma {:induction false} AllSized(vectors: seq<View>, sizes: seq<int>, statuses: seq<Status>)
    requires |vectors| == |sizes| == |statuses|
    requires forall i :: 0 <= i < |vectors| ==> vectors[i].form.Vector?
    requires forall i :: 0 <= i < |vectors| ==> statuses[i] == ExactSizeStatus(vectors[i], sizes[i])
    requires forall i :: 0 <= i < |vectors| ==> IsSized(vectors[i], sizes[i])
    ensures FirstFailure(statuses) == Ok
  {
    if |vectors| > 0 {
      assert IsSized(vectors[0], sizes[0]);
      AllSized(vectors[1..], sizes[1..], statuses[1..]);
    }
  }

  ghost predicate PairwiseApart(vectors: seq<View>) {
    forall i, j :: 0 <= i < j < |vectors| ==> Apart(vectors[i], vectors[j])
  }

  lemma {:induction false} RotmgStatusIs(
      backend: Backend, d1: View, d2: View, x1: View, y1: View, parameters: View, k: nat)
    requires d1.form.Vector? && d2.form.Vector? && x1.form.Vector? && y1.form.Vector? && parameters.form.Vector?
    ensures var vectors, sizes := [d1, d2, x1, y1, parameters], [1, 1, 1, 1, 5];
      var status := RotationKernels.RotmgStatus(backend, d1, d2, x1, y1, parameters);
      var sized := forall i :: 0 <= i < 5 ==> IsSized(vectors[i], sizes[i]);
      var placed := parameters.form.increment == 1 && PairwiseApart(vectors);
      && (backend != Serial ==> status == Failed(Unsupported))
      && (backend == Serial && k < 5 && !IsSized(vectors[k], sizes[k])
          && (forall i :: 0 <= i < k ==> IsSized(vectors[i], sizes[i])) ==>
            status == Failed(if vectors[k].space != Host then MemoryAccess else Shape))
      && (backend == Serial && sized ==> status == if placed then Ok else Failed(InvalidArgument))
  {
    hide Overlap, FirstFailure, IsSized;
    var vectors, sizes := [d1, d2, x1, y1, parameters], [1, 1, 1, 1, 5];
    var statuses := [ExactSizeStatus(d1, 1), ExactSizeStatus(d2, 1), ExactSizeStatus(x1, 1), ExactSizeStatus(y1, 1),
                     ExactSizeStatus(parameters, 5)];
    forall i | 0 <= i < 5
      ensures statuses[i] == ExactSizeStatus(vectors[i], sizes[i])
    {
    }
    if forall i :: 0 <= i < 5 ==> IsSized(vectors[i], sizes[i]) {
      AllSized(vectors, sizes, statuses);
    } else if k < 5 && !IsSized(vectors[k], sizes[k]) && forall i :: 0 <= i < k ==> IsSized(vectors[i], sizes[i]) {
      FirstOperandDecides(vectors, sizes, statuses, k);
    }
  }

  lemma RotmStatusIs(backend: Backend, x: View, y: View, parameters: View)
    requires x.form.Vector? && y.form.Vector? && parameters.form.Vector?
    ensures var status := RotationKernels.RotmStatus(backend, x, y, parameters);
      var serial, host, paired := backend == Serial, x.space == Host && y.space == Host, x.form.size == y.form.size;
      var placed := parameters.form.increment == 1 && PairwiseApart([x, y, parameters]);
      && (status == Failed(Unsupported) <==> !serial)
      && (status == Failed(MemoryAccess) <==> serial && (!host || (paired && parameters.space != Host)))
      && (status == Failed(Shape) <==>
            serial && host && (!paired || (parameters.space == Host && parameters.form.size != 5)))
      && (status == Failed(InvalidArgument) <==> serial && host && paired && IsSized(parameters, 5) && !placed)
      && (status == Ok <==> serial && host && paired && IsSized(parameters, 5) && placed)
  {
    hide Overlap;
    var vectors := [x, y, parameters];
    assert PairwiseApart(vectors) <==> Apart(x, y) && Apart(x, parameters) && Apart(y, parameters) by {
      assert vectors[0] == x && vectors[1] == y && vectors[2] == parameters;
    }
  }
}
