/** The strided operands of the Level 1 kernels. */
module VectorOperands {
  import opened Results
  import opened Storage

  predicate IsVector(vector: View, length: nat) {
    vector.form.Vector? && Fits(vector, length)
  }

  function Value<T>(memory: seq<T>, vector: View, index: int): T
    requires IsVector(vector, |memory|) && 0 <= index < vector.form.size
  {
    PlaceFits(vector, |memory|, Upper, index, 0);
    memory[Place(vector, Upper, index, 0)]
  }

  /** Level 1 kernels accept plain host memory only; pinned memory is refused. */
  function ValidateHost(vector: View): Status {
    if vector.space != Host then Failed(MemoryAccess) else Ok
  }

  function ExactSizeStatus(vector: View, expected: int): Status
    requires vector.form.Vector?
  {
    if ValidateHost(vector) != Ok then ValidateHost(vector)
    else if vector.form.size != expected then Failed(Shape)
    else Ok
  }

  function FirstFailure(statuses: seq<Status>): Status {
    if |statuses| == 0 then Ok
    else if statuses[0] != Ok then statuses[0]
    else FirstFailure(statuses[1..])
  }

  predicate PairwiseOverlap(vectors: seq<View>) {
    exists i, j :: 0 <= i < j < |vectors| && Overlap(vectors[i], vectors[j])
  }

  lemma FirstElement<T>(vector: View, memory: seq<T>)
    requires IsVector(vector, |memory|) && vector.form.size == 1 && 0 <= vector.base < |memory|
    ensures Value(memory, vector, 0) == memory[vector.base]
  {
  }
}
