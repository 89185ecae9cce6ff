/** Failure-compatible result and option types shared by every module. */
module Wrappers {

  datatype Option<+T> = None | Some(value: T)

  /** The outcome of a fallible operation: a value, or an error of kind `E`. */
  datatype Result<+T, +E> = Ok(value: T) | Err(error: E) {

    predicate IsFailure() {
      Err?
    }

    function PropagateFailure<U>(): Result<U, E>
      requires Err?
    {
      Err(error)
    }

    function Extract(): T
      requires Ok?
    {
      value
    }
  }
}
