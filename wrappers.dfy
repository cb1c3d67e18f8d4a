/** Option and Result: a C# reference that may be null, and an operation
    that may throw instead of returning. */
module Wrappers {

  datatype Option<+T> = None | Some(value: T)

  /** The exceptions the modelled code can raise. */
  datatype Error = NullReference

  datatype Result<+R> = Success(value: R) | Failure(error: Error)
}
