/** Optional values and error-carrying results shared by every module of the model. */
module Wrappers {

  /** The model of a JavaScript value that may be `null`/`undefined`. */
  datatype Option<+T> = None | Some(value: T) {

    /** Returns the value in Some, or `default` for None (the `??` operator). */
    function GetOr(default: T): T {
      match this
      case Some(v) => v
      case None => default
    }
  }

  /** A computation that either produces a value or stops with an error. */
  datatype Result<+R, +E> = Ok(value: R) | Err(error: E) {

    predicate IsFailure() {
      Err?
    }

    function PropagateFailure<U>(): Result<U, E>
      requires Err?
    {
      Err(error)
    }

    function Extract(): R
      requires Ok?
    {
      value
    }
  }
}
