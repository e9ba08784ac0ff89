/** Optional values and results with an error, used for the TypeScript code's
    `undefined` values and thrown errors. */
module Wrappers {

  datatype Option<+T> = None | Some(value: T) {
    /** JavaScript's `x ?? d`: the value when present, else the default. */
    function GetOr(default: T): T {
      match this
      case Some(v) => v
      case None => default
    }
  }

  datatype Result<+T, +E> = Ok(value: T) | Err(error: E) {
    predicate IsFailure() {
      Err?
    }

    function PropagateFailure<U>(): Result<U, E>
      requires Err?
    {
      Err(error)
    }

    function Extract(): T
      requires Ok?
    {
      value
    }
  }
}
