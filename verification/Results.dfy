/** Error codes, statuses and results shared by every module. */
module Results {

  datatype ErrorCode =
    | InvalidArgument
    | Shape
    | Index
    | Overflow
    | MemoryAccess
    | Unsupported
    | Configuration
    | Encoding
    | Version
    | InvalidState
    | EndOfFile

  datatype Status = Ok | Failed(code: ErrorCode)

  datatype Result<+T> = Success(value: T) | Failure(error: ErrorCode) {
    predicate IsFailure() {
      Failure?
    }

    function PropagateFailure<U>(): Result<U>
      requires Failure?
    {
      Failure(error)
    }

    function Extract(): T
      requires Success?
    {
      value
    }
  }

  datatype Option<+T> = None | Some(value: T)
}
