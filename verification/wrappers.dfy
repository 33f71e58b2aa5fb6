/** Failure-compatible wrappers used throughout the model.
    - Option<T>: a value that may be absent (a missing dictionary key, a pandas NaN,
      an image that could not be extracted).
    - Result<T, E>: a value or the message of the exception that replaced it.
 */
module Wrappers {

  datatype Option<+T> = None | Some(value: T)

  datatype Result<+T, +E> = Ok(value: T) | Err(error: E) {

    predicate IsFailure() {
      Err?
    }

    function PropagateFailure<U>(): Result<U, E>
      requires Err?
    {
      Err(error)
    }

    function Extract(): T
      requires Ok?
    {
      value
    }
  }

  /** Re-raises a failure as a new exception whose message is `prefix` followed
      by the original message; a success passes through. */
  function Rewrap<T>(prefix: string, r: Result<T, string>): Result<T, string> {
    match r
    case Ok(v) => Ok(v)
    case Err(e) => Err(prefix + e)
  }
}
