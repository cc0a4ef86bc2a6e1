/** Optional values and results with an error, usable with `:-`. */
module Wrappers {

  /** A value that may be absent: the model's stand-in for a Java `null`. */
  datatype Option<+T> = None | Some(value: T)

  /** Either a value or the name of what went wrong. */
  datatype Result<+R> = Success(value: R) | Failure(error: string) {

    predicate IsFailure() {
      Failure?
    }

    function PropagateFailure<U>(): Result<U>
      requires Failure?
    {
      Failure(error)
    }

    function Extract(): R
      requires Success?
    {
      value
    }
  }
}
