/** Failure-compatible wrappers used throughout the model: `Option` for values
    that may be absent (a missing store entry, a number that did not parse, a
    date that did not parse) and `Result` for initialization that may abort. */
module Wrappers {

  datatype Option<+T> = None | Some(value: T)

  datatype Result<+T, +E> = Ok(value: T) | Err(error: E) {

    predicate IsFailure() {
      Err?
    }

    function PropagateFailure<U>(): Result<U, E>
      requires Err?
    {
      Err(error)
    }

    function Extract(): T
      requires Ok?
    {
      value
    }
  }
}
