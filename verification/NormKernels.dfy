/** The scaled 2-norm kernels: over strided real and complex vectors, and over dense views. */
module NormKernels {
  import opened Results
  import opened Storage
  import opened VectorOperands
  import opened Norm
  import opened Views
  import opened DenseLayouts
  import Layouts
  import Operands

  // ----- Strided real vectors -----------------------------------------------

  /** The checks of a reduction, in order. */
  function ReductionStatus(backend: Backend, operand: View, result: View, overlap: bool): Status
    requires operand.form.Vector? && result.form.Vector?
  {
    if Operands.ValidateContext(backend) != Ok then Operands.ValidateContext(backend)
    else if ValidateHost(operand) != Ok then ValidateHost(operand)
    else if ExactSizeStatus(result, 1) != Ok then ExactSizeStatus(result, 1)
    else if overlap then Failed(InvalidArgument)
    else Ok
  }

  /** The values of a vector in index order. */
  function Values(memory: seq<Extended>, vector: View): (values: seq<Extended>)
    requires IsVector(vector, |memory|)
    ensures |values| == vector.form.size
  {
    seq(vector.form.size, i requires 0 <= i < vector.form.size => Value(memory, vector, i))
  }

  lemma ResultFits(result: View, length: nat)
    requires IsVector(result, length) && result.form.size == 1
    ensures 0 <= result.base < length
  {
  }

  /** The norm of a real vector, written to the result. */
  method Nrm2Vector(memory: array<Extended>, backend: Backend, operand: View, result: View, root: real -> real)
    returns (status: Status)
    requires IsVector(operand, memory.Length) && IsVector(result, memory.Length)
    modifies memory
    ensures status == ReductionStatus(backend, operand, result, Overlap(operand, result))
    ensures status != Ok ==> memory[..] == old(memory[..])
    ensures status == Ok ==> result.form.size == 1 && 0 <= result.base < memory.Length
    ensures status == Ok ==>
      memory[..] == old(memory[..])[result.base := VectorNorm(Values(old(memory[..]), operand), root)]
  {
    hide Accumulated, VectorState, Overlap;
    status := ReductionStatus(backend, operand, result, Overlap(operand, result));
    if status != Ok {
      return;
    }
    ResultFits(result, memory.Length);
    ghost var values := Values(memory[..], operand);
    var scale, sum := Finite(0.0), Finite(1.0);
    NothingSeen();
    for index := 0 to operand.form.size
      invariant memory[..] == old(memory[..])
      invariant VectorState(values[..index], scale, sum)
    {
      assert values[..index + 1] == values[..index] + [values[index]];
      var value := Value(memory[..], operand, index);
      scale, sum := AddScaledSquare(value, scale, sum, values[..index]);
    }
    assert values[..|values|] == values;
    var norm := FinishNorm(scale, sum, root, values);
    memory[result.base] := norm;
  }

  // ----- Strided complex vectors --------------------------------------------

  /** A complex vector on a memory of real cells: element `i` takes the two
      cells that start `2 * i * increment` after the base. */
  predicate IsComplexVector(vector: View, length: nat) {
    && vector.form.Vector? && WellFormed(vector.form)
    && (Span(vector.form) > 0 ==>
          && 0 <= vector.base + 2 * Lowest(vector.form)
          && vector.base + 2 * (Lowest(vector.form) + Span(vector.form)) <= length)
  }

  predicate ComplexOverlap(operand: View, result: View) {
    && Span(operand.form) > 0 && Span(result.form) > 0
    && operand.base + 2 * Lowest(operand.form) < result.base + Lowest(result.form) + Span(result.form)
    && result.base + Lowest(result.form) < operand.base + 2 * (Lowest(operand.form) + Span(operand.form))
  }

  lemma PartsFit(vector: View, length: nat, index: int)
    requires IsComplexVector(vector, length) && 0 <= index < vector.form.size
    ensures 0 <= vector.base + 2 * (index * vector.form.increment)
    ensures vector.base + 2 * (index * vector.form.increment) + 1 < length
  {
    hide Span, Lowest;
    OffsetInReach(vector.form, Upper, index, 0);
  }

  /** The real (0) or imaginary (1) part of an element. */
  function Part(memory: seq<Extended>, vector: View, index: int, part: int): Extended
    requires IsComplexVector(vector, |memory|) && 0 <= index < vector.form.size && 0 <= part < 2
  {
    PartsFit(vector, |memory|, index);
    memory[vector.base + 2 * (index * vector.form.increment) + part]
  }

  /** The real and imaginary parts of the first `n` elements, in the order the loop visits them. */
  function Parts(memory: seq<Extended>, vector: View, n: int): seq<Extended>
    requires IsComplexVector(vector, |memory|) && 0 <= n <= vector.form.size
  {
    if n == 0 then []
    else Parts(memory, vector, n - 1) + [Part(memory, vector, n - 1, 0)] + [Part(memory, vector, n - 1, 1)]
  }

  /** The norm of a complex vector is that of its parts. */
  method Nrm2Complex(memory: array<Extended>, backend: Backend, operand: View, result: View, root: real -> real)
    returns (status: Status)
    requires IsComplexVector(operand, memory.Length) && IsVector(result, memory.Length)
    modifies memory
    ensures status == ReductionStatus(backend, operand, result, ComplexOverlap(operand, result))
    ensures status != Ok ==> memory[..] == old(memory[..])
    ensures status == Ok ==> result.form.size == 1 && 0 <= result.base < memory.Length
    ensures status == Ok ==>
      memory[..]
      == old(memory[..])[result.base := VectorNorm(Parts(old(memory[..]), operand, operand.form.size), root)]
  {
    hide Accumulated, VectorState, ComplexOverlap;
    status := ReductionStatus(backend, operand, result, ComplexOverlap(operand, result));
    if status != Ok {
      return;
    }
    ResultFits(result, memory.Length);
    ghost var before := memory[..];
    var scale, sum := Finite(0.0), Finite(1.0);
    NothingSeen();
    for index := 0 to operand.form.size
      invariant memory[..] == before
      invariant VectorState(Parts(before, operand, index), scale, sum)
    {
      ghost var seen := Parts(before, operand, index);
      PartsFit(operand, memory.Length, index);
      var cell := operand.base + 2 * (index * operand.form.increment);
      var re, im := memory[cell], memory[cell + 1];
      scale, sum := AddScaledSquare(re, scale, sum, seen);
      scale, sum := AddScaledSquare(im, scale, sum, seen + [re]);
      assert Parts(before, operand, index + 1) == seen + [re] + [im];
    }
    var norm := FinishNorm(scale, sum, root, Parts(before, operand, operand.form.size));
    memory[result.base] := norm;
  }

  // ----- Dense views --------------------------------------------------------

  /** A one-dimensional view whose elements are cells of the memory; its address is a cell. */
  ghost predicate IsViewOf(view: DenseView, length: nat) {
    && ValidView(view) && |view.mapping.extents| == 1
    && (view.mapping.requiredSpan > 0 && view.data != 0 ==>
          0 <= view.data && view.data + view.mapping.requiredSpan <= length)
  }

  function ViewStatus(backend: Backend, view: DenseView): Status {
    if Operands.ValidateContext(backend) != Ok then Operands.ValidateContext(backend)
    else if view.space != Host then Failed(MemoryAccess)
    else if view.mapping.requiredSpan != 0 && view.data == 0 then Failed(MemoryAccess)
    else Ok
  }

  /** Every element of an accepted view is a cell. */
  lemma ElementFits(view: DenseView, length: nat, index: int)
    requires IsViewOf(view, length) && 0 <= index < view.mapping.extents[0]
    requires view.mapping.requiredSpan != 0 ==> view.data != 0
    ensures 0 <= view.data + index * view.mapping.strides[0] < length
  {
    var extents, strides := view.mapping.extents, view.mapping.strides;
    assert extents == [extents[0]] && strides == [strides[0]];
    OneDimension(extents, strides, [index]);
    OneDimension(extents, strides, Layouts.Corner(extents));
    assert Layouts.InExtents(extents, [index]);
    DotBounds(extents, strides, [index]);
  }

  lemma OneDimension(extents: seq<int>, strides: seq<int>, coordinates: seq<int>)
    requires |extents| == |strides| == |coordinates| == 1
    ensures Layouts.Dot(coordinates, strides) == coordinates[0] * strides[0]
    ensures Layouts.Product(extents) == extents[0]
  {
    assert Layouts.Dot([], []) == 0 && Layouts.Product([]) == 1;
    assert coordinates[..0] == [] && strides[..0] == [] && extents[..0] == [];
  }

  /** The values of a view in index order. */
  ghost function ViewValues(memory: seq<Extended>, view: DenseView): (values: seq<Extended>)
    requires IsViewOf(view, |memory|) && (view.mapping.requiredSpan != 0 ==> view.data != 0)
    ensures |values| == view.mapping.extents[0]
  {
    seq(view.mapping.extents[0], i requires 0 <= i < view.mapping.extents[0] =>
      (ElementFits(view, |memory|, i); memory[view.data + i * view.mapping.strides[0]]))
  }

  /** The norm of a view, returned as a value. */
  method Nrm2View(memory: array<Extended>, backend: Backend, view: DenseView, root: real -> real)
    returns (result: Result<Extended>)
    requires IsViewOf(view, memory.Length)
    ensures ViewStatus(backend, view) != Ok ==> result == Failure(ViewStatus(backend, view).code)
    ensures ViewStatus(backend, view) == Ok ==> result == Success(ViewNorm(ViewValues(memory[..], view), root))
  {
    var status := ViewStatus(backend, view);
    if status != Ok {
      return Failure(status.code);
    }
    hide Accumulated, IsViewOf;
    ghost var values := ViewValues(memory[..], view);
    var scale, sum := 0.0, 1.0;
    var hasInfinity := false;
    AccumulatedNothing();
    for index := 0 to view.mapping.extents[0]
      invariant Accumulated(values[..index], scale, sum)
      invariant !AnyNotANumber(values[..index])
      invariant hasInfinity <==> AnyInfinity(values[..index])
    {
      ghost var before := values[..index];
      assert values[..index + 1] == before + [values[index]];
      assert values[index] in values;
      ElementFits(view, memory.Length, index);
      var value := memory[view.data + index * view.mapping.strides[0]];
      assert value == values[index];
      var magnitude := Absolute(value);
      if magnitude.NotANumber? {
        return Success(NotANumber);
      }
      if magnitude.Infinity? {
        AddSpecial(before, scale, sum, value);
        hasInfinity := true;
        continue;
      }
      scale, sum := AddMagnitude(scale, sum, magnitude.value, value.value, before);
    }
    assert values[..|values|] == values;
    if hasInfinity {
      return Success(Infinity(false));
    }
    AccumulatedNorm(values, scale, sum, root);
    return Success(if scale == 0.0 then Finite(0.0) else Finite(scale * root(sum)));
  }
}
