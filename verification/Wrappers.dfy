/** The error codes of the library, and results that carry either a value or such a code. */
module Wrappers {

  datatype Option<+T> = None | Some(value: T)

  /** GP_ERROR_BAD_PARAMETERS, GP_ERROR_CORRUPTED_DATA, GP_ERROR_NO_SPACE and GP_ERROR_IO. */
  datatype Error = BadParameters | CorruptedData | NoSpace | Io

  datatype Result<+T> = Success(value: T) | Failure(error: Error) {

    predicate IsFailure() {
      Failure?
    }

    function PropagateFailure<U>(): Result<U>
      requires Failure?
    {
      Failure(error)
    }

    function Extract(): T
      requires Success?
    {
      value
    }
  }

  type Status = Result<()>

  const OK: Status := Success(())
}
