/** Rotmg and Rotm over strided vectors of one flat memory. */
module RotationKernels {
  import opened Results
  import opened Storage
  import opened Reals
  import opened Givens
  import opened Rescaling
  import opened Rotations
  import opened VectorOperands
  import Operands

  // ----- Operands -----------------------------------------------------------

  /** The five entries of a contiguous parameter vector. */
  function Parameters(memory: seq<real>, parameters: View): seq<real>
    requires IsVector(parameters, |memory|) && parameters.form == Vector(5, 1)
  {
    memory[parameters.base..parameters.base + 5]
  }

  // ----- Rotmg --------------------------------------------------------------

  function RotmgStatus(backend: Backend, d1: View, d2: View, x1: View, y1: View, parameters: View): Status
    requires d1.form.Vector? && d2.form.Vector? && x1.form.Vector? && y1.form.Vector? && parameters.form.Vector?
  {
    if Operands.ValidateContext(backend) != Ok then Operands.ValidateContext(backend)
    else
      var sizes := [ExactSizeStatus(d1, 1), ExactSizeStatus(d2, 1), ExactSizeStatus(x1, 1), ExactSizeStatus(y1, 1),
                    ExactSizeStatus(parameters, 5)];
      if FirstFailure(sizes) != Ok then FirstFailure(sizes)
      else if parameters.form.increment != 1 then Failed(InvalidArgument)
      else if PairwiseOverlap([d1, d2, x1, y1, parameters]) then Failed(InvalidArgument)
      else Ok
  }

  /** The first rescaling loop, which guards on the signed weight. */
  method RescaleFirst(ghost stage: Stage, v: Variables) returns (w: Variables)
    requires Entered(stage, v)
    ensures SecondLoop(stage.rotation, stage.flag, Iterations(stage.rotation.d1), Total(stage.rotation.d1), 0, w)
  {
    FirstLoopStarts(stage, v);
    hide FirstLoop, SecondLoop, Iterations, Total, Distance, Entered, OutOfRange, WeightScaled;
    w := v;
    ghost var b, k := stage.rotation, 0;
    while w.d1 <= INVERSE_GAMMA_SQUARED || w.d1 >= GAMMA_SQUARED
      invariant FirstLoop(b, stage.flag, k, w)
      decreases Distance(w.d1)
    {
      FirstGuard(b, stage.flag, k, w);
      FirstStep(b, stage.flag, k, w);
      ghost var next := FirstIteration(w);
      if w.flag == 0.0 {
        w := w.(h11 := 1.0, h22 := 1.0);
      } else {
        w := w.(h21 := -1.0, h12 := 1.0);
      }
      w := w.(flag := -1.0);
      if w.d1 <= INVERSE_GAMMA_SQUARED {
        w := w.(d1 := w.d1 * GAMMA_SQUARED, x1 := w.x1 / GAMMA, h11 := w.h11 / GAMMA, h12 := w.h12 / GAMMA);
      } else {
        w := w.(d1 := w.d1 / GAMMA_SQUARED, x1 := w.x1 * GAMMA, h11 := w.h11 * GAMMA, h12 := w.h12 * GAMMA);
      }
      assert w == next;
      k := k + 1;
    }
    FirstGuard(b, stage.flag, k, w);
    SecondLoopStarts(b, stage.flag, k, w);
  }

  lemma FirstGuard(b: Rotation, flag0: real, k: nat, v: Variables)
    requires FirstLoop(b, flag0, k, v)
    ensures v.d1 <= INVERSE_GAMMA_SQUARED || v.d1 >= GAMMA_SQUARED <==> OutOfRange(v.d1)
  {
  }

  /** The second rescaling loop, which guards on the absolute weight. */
  method RescaleSecond(ghost stage: Stage, v: Variables, ghost before: seq<real>) returns (w: Variables)
    requires |before| == 5 && stage.Rotated? && (stage.flag == 0.0 || stage.flag == 1.0)
    requires SecondLoop(stage.rotation, stage.flag, Iterations(stage.rotation.d1), Total(stage.rotation.d1), 0, v)
    ensures var f := Finished(stage.rotation); w.d1 == f.d1 && w.d2 == f.d2 && w.x1 == f.x1
    ensures Stored(before, w) == Encoded(before, stage)
  {
    hide SecondLoop, Iterations, Total, Distance, Finished, Encoded, Stored;
    w := v;
    ghost var b, n, s, k := stage.rotation, Iterations(stage.rotation.d1), Total(stage.rotation.d1), 0;
    while w.d2 != 0.0 && (Abs(w.d2) <= INVERSE_GAMMA_SQUARED || Abs(w.d2) >= GAMMA_SQUARED)
      invariant SecondLoop(b, stage.flag, n, s, k, w)
      decreases Distance(w.d2)
    {
      SecondStep(b, stage.flag, n, s, k, w);
      ghost var next := SecondIteration(w);
      if w.flag == 0.0 {
        w := w.(h11 := 1.0, h22 := 1.0);
      } else {
        w := w.(h21 := -1.0, h12 := 1.0);
      }
      w := w.(flag := -1.0);
      if Abs(w.d2) <= INVERSE_GAMMA_SQUARED {
        w := w.(d2 := w.d2 * GAMMA_SQUARED, h21 := w.h21 / GAMMA, h22 := w.h22 / GAMMA);
      } else {
        w := w.(d2 := w.d2 / GAMMA_SQUARED, h21 := w.h21 * GAMMA, h22 := w.h22 * GAMMA);
      }
      assert w == next;
      k := k + 1;
    }
    SecondLoopEnds(b, stage.flag, k, w, before);
  }

  /** The weights and first coordinate that Rotmg leaves. */
  function Scaled(stage: Stage, d1: real, d2: real, x1: real): (real, real, real) {
    match stage
    case Identity => (d1, d2, x1)
    case Zeroed => (0.0, 0.0, 0.0)
    case Rotated(_, b) => (Finished(b).d1, Finished(b).d2, Finished(b).x1)
  }

  /** What the branches leave: a rotation to rescale, or zeros. */
  ghost predicate Branched(stage: Stage, v: Variables) {
    if stage.Rotated? then Entered(stage, v)
    else stage.Zeroed? && v == Variables(-1.0, 0.0, 0.0, 0.0, 0.0, 0.0, 0.0, 0.0)
  }

  /** What the branch that keeps the first coordinate has found before its last test. */
  lemma FirstBranch(d1: real, d2: real, x1: real, y1: real, h12: real, h21: real, u: real)
    requires u == 1.0 - h12 * h21 && d1 >= 0.0 && d2 * y1 != 0.0 && FirstDominates(d1, d2, x1, y1)
    requires d1 * x1 != 0.0 && x1 != 0.0 && h12 == (d2 * y1) / (d1 * x1) && h21 == -y1 / x1
    ensures d1 > 0.0 && u > 0.0
    ensures BaseStage(d1, d2, x1, y1) == Smaller(d1, d2, x1, h12, h21) == KeptFirst(u, d1, d2, x1, h12, h21)
  {
    hide KeptFirst, Smaller;
    DominatingIsNonzero(d1, d2, x1, y1);
    SmallerFactor(d1, d2, x1, y1, h12, h21);
    FactorIsUnique(u, d1, d2, x1, h12, h21);
  }

  lemma FactorIsUnique(u: real, d1: real, d2: real, x: real, h12: real, h21: real)
    requires u == 1.0 - h12 * h21
    ensures Smaller(d1, d2, x, h12, h21) == KeptFirst(u, d1, d2, x, h12, h21)
  {
  }

  /** The branch that keeps the first coordinate. */
  method KeepFirst(d1: real, d2: real, x1: real, y1: real, p1: real, p2: real) returns (v: Variables)
    requires d1 >= 0.0 && d2 * y1 != 0.0 && FirstDominates(d1, d2, x1, y1) && p1 == d1 * x1 && p2 == d2 * y1
    ensures Branched(BaseStage(d1, d2, x1, y1), v)
  {
    DominatingIsNonzero(d1, d2, x1, y1);
    var h21 := -y1 / x1;
    var h12 := p2 / p1;
    var u := 1.0 - h12 * h21;
    FirstBranch(d1, d2, x1, y1, h12, h21, u);
    hide FirstDominates, BaseStage;
    v := Variables(-1.0, 0.0, h12, h21, 0.0, d1, d2, x1);
    if u > 0.0 {
      PositiveQuotient(d1, u);
      v := v.(flag := 0.0, d1 := d1 / u, d2 := d2 / u, x1 := x1 * u);
    } else {
      v := v.(d1 := 0.0, d2 := 0.0, x1 := 0.0);
    }
  }

  /** What the branch that keeps the second coordinate has found. */
  lemma SecondBranch(d1: real, d2: real, x1: real, y1: real, h11: real, h22: real)
    requires d1 >= 0.0 && d2 * y1 != 0.0 && !FirstDominates(d1, d2, x1, y1) && d2 > 0.0
    requires y1 != 0.0 && h11 == (d1 * x1) / (d2 * y1) && h22 == x1 / y1
    ensures 1.0 + h11 * h22 > 0.0
    ensures BaseStage(d1, d2, x1, y1) == Larger(d1, d2, y1, h11, h22)
  {
    WeightedSquare(d2, y1);
    LargerFactor(d1, d2, x1, y1, h11, h22);
  }

  /** The branch that keeps the second coordinate. */
  method KeepSecond(d1: real, d2: real, x1: real, y1: real, p1: real, p2: real) returns (v: Variables)
    requires d1 >= 0.0 && d2 * y1 != 0.0 && !FirstDominates(d1, d2, x1, y1) && d2 > 0.0
    requires p1 == d1 * x1 && p2 == d2 * y1
    ensures Branched(BaseStage(d1, d2, x1, y1), v)
  {
    ProductSign(d2, y1);
    var h11 := p1 / p2;
    var h22 := x1 / y1;
    SecondBranch(d1, d2, x1, y1, h11, h22);
    hide FirstDominates, BaseStage;
    var u := 1.0 + h11 * h22;
    PositiveQuotient(d2, u);
    v := Variables(1.0, h11, 0.0, 0.0, h22, d2 / u, d1 / u, y1 * u);
  }

  lemma BranchTests(d1: real, d2: real, x1: real, y1: real, p1: real, p2: real, q1: real, q2: real)
    requires p1 == d1 * x1 && q1 == p1 * x1 && p2 == d2 * y1 && q2 == p2 * y1
    ensures Abs(q1) > Abs(q2) <==> FirstDominates(d1, d2, x1, y1)
    ensures p2 != 0.0 ==> (q2 < 0.0 <==> d2 < 0.0) && d2 != 0.0
  {
    WeightedSquare(d2, y1);
    assert q1 == d1 * x1 * x1;
    assert q2 == d2 * y1 * y1;
  }

  /** The kernel on its scalars; `skip` reports that only the flag of an identity is to be written. */
  method Transform(d1: real, d2: real, x1: real, y1: real, ghost before: seq<real>) returns (skip: bool, v: Variables)
    requires |before| == 5
    ensures skip <==> BaseStage(d1, d2, x1, y1).Identity?
    ensures !skip ==> Scaled(BaseStage(d1, d2, x1, y1), d1, d2, x1) == (v.d1, v.d2, v.x1)
    ensures !skip ==> Stored(before, v) == Encoded(before, BaseStage(d1, d2, x1, y1))
  {
    ghost var stage := BaseStage(d1, d2, x1, y1);
    v := Variables(-1.0, 0.0, 0.0, 0.0, 0.0, 0.0, 0.0, 0.0);
    skip := false;
    hide Finished, SecondLoop, Iterations, Preserves;
    if d1 < 0.0 {
      return;
    }
    var p2 := d2 * y1;
    if p2 == 0.0 {
      skip := true;
      return;
    }
    BasePreserves(d1, d2, x1, y1);
    var p1 := d1 * x1;
    var q2 := p2 * y1;
    var q1 := p1 * x1;
    BranchTests(d1, d2, x1, y1, p1, p2, q1, q2);
    hide FirstDominates, BaseStage;
    if Abs(q1) > Abs(q2) {
      v := KeepFirst(d1, d2, x1, y1, p1, p2);
    } else if !(q2 < 0.0) {
      v := KeepSecond(d1, d2, x1, y1, p1, p2);
    }
    if v.d1 != 0.0 {
      v := RescaleFirst(stage, v);
      v := RescaleSecond(stage, v, before);
    }
  }

  /** A scalar operand outside the five parameters. */
  predicate Apart(scalar: View, parameters: View) {
    scalar.base < parameters.base || parameters.base + 5 <= scalar.base
  }

  /** What accepted operands of Rotmg look like in memory. */
  lemma AcceptedOperands(length: nat, backend: Backend, d1: View, d2: View, x1: View, y1: View, parameters: View)
    requires IsVector(d1, length) && IsVector(d2, length) && IsVector(x1, length) && IsVector(y1, length)
    requires IsVector(parameters, length) && RotmgStatus(backend, d1, d2, x1, y1, parameters) == Ok
    ensures parameters.form == Vector(5, 1) && 0 <= parameters.base && parameters.base + 5 <= length
    ensures d1.form.size == d2.form.size == x1.form.size == y1.form.size == 1
    ensures 0 <= d1.base < length && 0 <= d2.base < length && 0 <= x1.base < length && 0 <= y1.base < length
    ensures d1.base != d2.base && d1.base != x1.base && d2.base != x1.base
    ensures Apart(d1, parameters) && Apart(d2, parameters) && Apart(x1, parameters)
  {
    var vectors := [d1, d2, x1, y1, parameters];
    var statuses := [ExactSizeStatus(d1, 1), ExactSizeStatus(d2, 1), ExactSizeStatus(x1, 1), ExactSizeStatus(y1, 1),
                     ExactSizeStatus(parameters, 5)];
    NoFailure(statuses);
    assert forall i :: 0 <= i < 5 ==> statuses[i] == Ok;
    assert statuses[0] == Ok && statuses[1] == Ok && statuses[2] == Ok && statuses[3] == Ok && statuses[4] == Ok;
    assert forall i, j :: 0 <= i < j < 5 ==> !Overlap(vectors[i], vectors[j]);
    assert !Overlap(vectors[0], vectors[1]) && !Overlap(vectors[0], vectors[2]) && !Overlap(vectors[1], vectors[2]);
    assert !Overlap(vectors[0], vectors[4]) && !Overlap(vectors[1], vectors[4]) && !Overlap(vectors[2], vectors[4]);
  }

  lemma {:induction false} NoFailure(statuses: seq<Status>)
    requires FirstFailure(statuses) == Ok
    ensures forall i :: 0 <= i < |statuses| ==> statuses[i] == Ok
  {
    if |statuses| == 0 {
    } else {
      NoFailure(statuses[1..]);
      assert forall i :: 1 <= i < |statuses| ==> statuses[i] == statuses[1..][i - 1];
    }
  }

  method StoreParameters(memory: array<real>, p: int, v: Variables)
    requires 0 <= p && p + 5 <= memory.Length
    modifies memory
    ensures memory[p..p + 5] == Stored(old(memory[p..p + 5]), v)
    ensures forall o :: 0 <= o < memory.Length && !(p <= o < p + 5) ==> memory[o] == old(memory[o])
  {
    memory[p] := v.flag;
    if v.flag < 0.0 {
      memory[p + 1] := v.h11;
      memory[p + 2] := v.h21;
      memory[p + 3] := v.h12;
      memory[p + 4] := v.h22;
    } else if v.flag == 0.0 {
      memory[p + 2] := v.h21;
      memory[p + 3] := v.h12;
    } else {
      memory[p + 1] := v.h11;
      memory[p + 4] := v.h22;
    }
  }

  /** The kernel on the elements `i`, `j`, `k` and `y` and the parameters from `p`. */
  method TransformElements(memory: array<real>, i: int, j: int, k: int, y: int, p: int)
    requires 0 <= i < memory.Length && 0 <= j < memory.Length && 0 <= k < memory.Length && 0 <= y < memory.Length
    requires i != j && i != k && j != k && 0 <= p && p + 5 <= memory.Length
    requires !(p <= i < p + 5) && !(p <= j < p + 5) && !(p <= k < p + 5)
    modifies memory
    ensures var stage := old(BaseStage(memory[i], memory[j], memory[k], memory[y]));
      && (memory[i], memory[j], memory[k]) == Scaled(stage, old(memory[i]), old(memory[j]), old(memory[k]))
      && memory[p..p + 5] == Encoded(old(memory[p..p + 5]), stage)
    ensures forall o :: 0 <= o < memory.Length && o != i && o != j && o != k && !(p <= o < p + 5) ==>
              memory[o] == old(memory[o])
  {
    hide Encoded, BaseStage, Finished, Scaled, Stored;
    ghost var before := memory[p..p + 5];
    var skip, v := Transform(memory[i], memory[j], memory[k], memory[y], before);
    if skip {
      IdentityScaled(before, memory[i], memory[j], memory[k]);
      memory[p] := -2.0;
      assert memory[p..p + 5] == before[0 := -2.0];
    } else {
      memory[i] := v.d1;
      memory[j] := v.d2;
      memory[k] := v.x1;
      assert memory[p..p + 5] == before;
      StoreParameters(memory, p, v);
    }
  }

  lemma IdentityScaled(before: seq<real>, d1: real, d2: real, x1: real)
    requires |before| == 5
    ensures Scaled(Identity, d1, d2, x1) == (d1, d2, x1)
    ensures Encoded(before, Identity) == before[0 := -2.0]
  {
  }

  /** Rotmg leaves the transformed weights and coordinate and the encoded
      rotation, and changes nothing else. */
  method Rotmg(memory: array<real>, backend: Backend, d1: View, d2: View, x1: View, y1: View, parameters: View)
    returns (status: Status)
    requires IsVector(d1, memory.Length) && IsVector(d2, memory.Length) && IsVector(x1, memory.Length)
    requires IsVector(y1, memory.Length) && IsVector(parameters, memory.Length)
    modifies memory
    ensures status == RotmgStatus(backend, d1, d2, x1, y1, parameters)
    ensures status != Ok ==> memory[..] == old(memory[..])
    ensures status == Ok ==>
      && parameters.form == Vector(5, 1) && d1.form.size == d2.form.size == x1.form.size == y1.form.size == 1
      && var m := old(memory[..]);
      var a, b, c := Value(m, d1, 0), Value(m, d2, 0), Value(m, x1, 0);
      var stage := BaseStage(a, b, c, Value(m, y1, 0));
      && (Value(memory[..], d1, 0), Value(memory[..], d2, 0), Value(memory[..], x1, 0)) == Scaled(stage, a, b, c)
      && Parameters(memory[..], parameters) == Encoded(Parameters(m, parameters), stage)
    ensures status == Ok ==>
      forall o :: 0 <= o < memory.Length && o !in [d1.base, d2.base, x1.base]
                  && !(parameters.base <= o < parameters.base + 5) ==>
        memory[o] == old(memory[o])
  {
    hide Encoded, BaseStage, Finished, Scaled, Overlap, Value;
    status := RotmgStatus(backend, d1, d2, x1, y1, parameters);
    if status != Ok {
      return;
    }
    AcceptedOperands(memory.Length, backend, d1, d2, x1, y1, parameters);
    hide RotmgStatus, Fits;
    FirstElement(d1, memory[..]);
    FirstElement(d2, memory[..]);
    FirstElement(x1, memory[..]);
    FirstElement(y1, memory[..]);
    TransformElements(memory, d1.base, d2.base, x1.base, y1.base, parameters.base);
    FirstElement(d1, memory[..]);
    FirstElement(d2, memory[..]);
    FirstElement(x1, memory[..]);
  }

  // ----- Rotm ---------------------------------------------------------------

  function RotmStatus(backend: Backend, x: View, y: View, parameters: View): Status
    requires x.form.Vector? && y.form.Vector? && parameters.form.Vector?
  {
    if Operands.ValidateContext(backend) != Ok then Operands.ValidateContext(backend)
    else if ValidateHost(x) != Ok then ValidateHost(x)
    else if ValidateHost(y) != Ok then ValidateHost(y)
    else if x.form.size != y.form.size then Failed(Shape)
    else if ExactSizeStatus(parameters, 5) != Ok then ExactSizeStatus(parameters, 5)
    else if parameters.form.increment != 1 then Failed(InvalidArgument)
    else if Overlap(x, y) || Overlap(x, parameters) || Overlap(y, parameters) then Failed(InvalidArgument)
    else Ok
  }

  /** The pairs below `count` are transformed and the others are not. */
  ghost predicate Transformed(before: seq<real>, after: seq<real>, m: Matrix, x: View, y: View, count: int)
    requires IsVector(x, |before|) && IsVector(y, |before|) && |after| == |before| && x.form.size == y.form.size
  {
    forall i :: 0 <= i < x.form.size ==>
      Pair(Value(after, x, i), Value(after, y, i))
      == if i < count then Apply(m, Value(before, x, i), Value(before, y, i))
         else Pair(Value(before, x, i), Value(before, y, i))
  }

  /** Nothing outside the two vectors differs. */
  ghost predicate PairFramed(before: seq<real>, after: seq<real>, x: View, y: View) {
    && |after| == |before|
    && forall o :: 0 <= o < |before| && !Operands.IsPlace(x, Upper, o) && !Operands.IsPlace(y, Upper, o) ==>
         after[o] == before[o]
  }

  /** Reading a vector after one of its elements, or an element of the other, was written. */
  lemma ValueAfterWrite(memory: seq<real>, x: View, y: View, index: int, value: real, i: int)
    requires IsVector(x, |memory|) && IsVector(y, |memory|) && !Overlap(x, y)
    requires 0 <= index < x.form.size
    ensures 0 <= Place(x, Upper, index, 0) < |memory|
    ensures var after := memory[Place(x, Upper, index, 0) := value];
      && (0 <= i < x.form.size ==> Value(after, x, i) == if i == index then value else Value(memory, x, i))
      && (0 <= i < y.form.size ==> Value(after, y, i) == Value(memory, y, i))
  {
    hide Offset, Span, Lowest, Overlap;
    PlaceFits(x, |memory|, Upper, index, 0);
    if 0 <= i < x.form.size {
      PlaceFits(x, |memory|, Upper, i, 0);
      if Place(x, Upper, i, 0) == Place(x, Upper, index, 0) {
        OffsetInjective(x.form, Upper, i, 0, index, 0);
      }
    }
    if 0 <= i < y.form.size {
      PlaceFits(y, |memory|, Upper, i, 0);
      NoSharedPlace(x, y, Upper, Upper, index, 0, i, 0);
    }
  }

  lemma {:induction false} PairWritten(
      before: seq<real>, current: seq<real>, m: Matrix, x: View, y: View, index: int, u: real, v: real)
    requires IsVector(x, |before|) && IsVector(y, |before|) && x.form.size == y.form.size && !Overlap(x, y)
    requires 0 <= index < x.form.size && PairFramed(before, current, x, y)
    requires Transformed(before, current, m, x, y, index)
    requires Pair(u, v) == Apply(m, Value(current, x, index), Value(current, y, index))
    ensures 0 <= Place(x, Upper, index, 0) < |current| && 0 <= Place(y, Upper, index, 0) < |current|
    ensures var next := current[Place(x, Upper, index, 0) := u][Place(y, Upper, index, 0) := v];
      PairFramed(before, next, x, y) && Transformed(before, next, m, x, y, index + 1)
  {
    var px, py := Place(x, Upper, index, 0), Place(y, Upper, index, 0);
    PlaceFits(x, |before|, Upper, index, 0);
    PlaceFits(y, |before|, Upper, index, 0);
    assert Operands.IsPlace(x, Upper, px) && Operands.IsPlace(y, Upper, py);
    var middle := current[px := u];
    var next := middle[py := v];
    hide Overlap, Value, Place, Fits, Operands.IsPlace, Apply;
    forall i | 0 <= i < x.form.size
      ensures Pair(Value(next, x, i), Value(next, y, i))
              == if i < index + 1 then Apply(m, Value(before, x, i), Value(before, y, i))
                 else Pair(Value(before, x, i), Value(before, y, i))
    {
      ValueAfterWrite(current, x, y, index, u, i);
      OverlapSymmetric(x, y);
      ValueAfterWrite(middle, y, x, index, v, i);
      assert Pair(Value(current, x, index), Value(current, y, index))
              == Pair(Value(before, x, index), Value(before, y, index));
    }
  }

  lemma OverlapSymmetric(x: View, y: View)
    ensures Overlap(x, y) <==> Overlap(y, x)
  {
  }

  /** Framed writes leave the parameters as they were. */
  lemma {:induction false} ParametersUndisturbed(
      before: seq<real>, after: seq<real>, x: View, y: View, parameters: View)
    requires IsVector(x, |before|) && IsVector(y, |before|) && PairFramed(before, after, x, y)
    requires IsVector(parameters, |before|) && parameters.form == Vector(5, 1)
    requires !Overlap(x, parameters) && !Overlap(y, parameters)
    ensures Parameters(after, parameters) == Parameters(before, parameters)
  {
    var old5, new5 := Parameters(before, parameters), Parameters(after, parameters);
    hide Overlap, Operands.IsPlace;
    forall k | 0 <= k < 5
      ensures new5[k] == old5[k]
    {
      ParameterIsApart(x, parameters, k);
      ParameterIsApart(y, parameters, k);
    }
  }

  lemma ParameterIsApart(x: View, parameters: View, k: int)
    requires x.form.Vector? && WellFormed(x.form) && parameters.form == Vector(5, 1) && 0 <= k < 5
    requires !Overlap(x, parameters)
    ensures !Operands.IsPlace(x, Upper, parameters.base + k)
  {
    if Operands.IsPlace(x, Upper, parameters.base + k) {
      var r, c :| IsSlot(x.form, Upper, r, c) && Place(x, Upper, r, c) == parameters.base + k;
      NoSharedPlace(x, parameters, Upper, Upper, r, c, k, 0);
    }
  }

  lemma IdentityTransforms(memory: seq<real>, x: View, y: View, m: Matrix)
    requires IsVector(x, |memory|) && IsVector(y, |memory|) && x.form.size == y.form.size
    requires m == Matrix(1.0, 0.0, 0.0, 1.0)
    ensures Transformed(memory, memory, m, x, y, x.form.size)
  {
    hide Value;
  }

  lemma NothingTransformed(memory: seq<real>, x: View, y: View, m: Matrix)
    requires IsVector(x, |memory|) && IsVector(y, |memory|) && x.form.size == y.form.size
    ensures Transformed(memory, memory, m, x, y, 0)
  {
  }

  /** One pair under the parameters in memory; entries the flag implies are one or minus one. */
  method RotatePair(memory: array<real>, flag: real, p: int, oldX: real, oldY: real) returns (u: real, v: real)
    requires 0 <= p && p + 5 <= memory.Length && flag == memory[p] && flag != -2.0
    ensures Pair(u, v) == Apply(Decoded(memory[p..p + 5]), oldX, oldY)
  {
    if flag < 0.0 {
      u, v := oldX * memory[p + 1] + oldY * memory[p + 3], oldX * memory[p + 2] + oldY * memory[p + 4];
    } else if flag == 0.0 {
      u, v := oldX + oldY * memory[p + 3], oldX * memory[p + 2] + oldY;
    } else {
      u, v := oldX * memory[p + 1] + oldY, -oldX + oldY * memory[p + 4];
    }
  }

  /** Rotm applies the decoded matrix to every pair and changes nothing else. */
  method Rotm(memory: array<real>, backend: Backend, x: View, y: View, parameters: View) returns (status: Status)
    requires IsVector(x, memory.Length) && IsVector(y, memory.Length) && IsVector(parameters, memory.Length)
    modifies memory
    ensures status == RotmStatus(backend, x, y, parameters)
    ensures status != Ok ==> memory[..] == old(memory[..])
    ensures status == Ok ==>
      && x.form.size == y.form.size && parameters.form == Vector(5, 1)
      && PairFramed(old(memory[..]), memory[..], x, y)
      && Transformed(old(memory[..]), memory[..], Decoded(Parameters(old(memory[..]), parameters)), x, y, x.form.size)
  {
    status := RotmStatus(backend, x, y, parameters);
    if status != Ok {
      return;
    }
    hide RotmStatus;
    var p := parameters.base;
    var flag := memory[p];
    ghost var before := memory[..];
    ghost var h := Parameters(before, parameters);
    ghost var m := Decoded(h);
    assert h[0] == flag;
    if flag == -2.0 {
      IdentityTransforms(before, x, y, m);
      return;
    }
    NothingTransformed(before, x, y, m);
    hide Overlap, IsVector, Transformed, PairFramed, Value, Decoded;
    for index := 0 to x.form.size
      invariant memory.Length == |before|
      invariant PairFramed(before, memory[..], x, y)
      invariant Transformed(before, memory[..], m, x, y, index)
    {
      ghost var current := memory[..];
      PlacesFit(x, y, memory.Length, index);
      ParametersUndisturbed(before, current, x, y, parameters);
      var px, py := x.base + index * x.form.increment, y.base + index * y.form.increment;
      var u, v := RotatePair(memory, flag, p, memory[px], memory[py]);
      PairWritten(before, current, m, x, y, index, u, v);
      memory[px] := u;
      memory[py] := v;
      assert memory[..] == current[px := u][py := v];
    }
  }

  lemma PlacesFit(x: View, y: View, length: nat, index: int)
    requires IsVector(x, length) && IsVector(y, length) && x.form.size == y.form.size && 0 <= index < x.form.size
    ensures 0 <= x.base + index * x.form.increment < length && 0 <= y.base + index * y.form.increment < length
    ensures Place(x, Upper, index, 0) == x.base + index * x.form.increment
    ensures Place(y, Upper, index, 0) == y.base + index * y.form.increment
  {
    PlaceFits(x, length, Upper, index, 0);
    PlaceFits(y, length, Upper, index, 0);
  }
}
