/** Failure-carrying results and the exception kinds the system throws. */
module Wrappers {

  datatype Option<+T> = None | Some(value: T)

  /** The standard-library exception classes the ingestion engine raises,
      each with its message text. */
  datatype Error =
    | RuntimeError(msg: string)
    | InvalidArgument(msg: string)
    | OutOfRange(msg: string)
    | TypeError(msg: string)

  datatype Result<+T> = Success(value: T) | Failure(error: Error) {
    predicate IsFailure() {
      Failure?
    }

    function PropagateFailure<U>(): Result<U>
      requires Failure?
    {
      Failure(error)
    }

    function Extract(): T
      requires Success?
    {
      value
    }
  }
}
