/** Failure-carrying results, standing in for Go's `(value, error)` and `error` returns. */
module Wrappers {

  /** A call that returns a value or an error; the error is kept as its message text. */
  datatype Result<T> = Ok(value: T) | Fail(error: string)

  /** A call that returns only an error (nil on success). */
  datatype Outcome = Pass | Failed(error: string)
}
