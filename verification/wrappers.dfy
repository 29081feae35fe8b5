/** Failure-carrying return values shared by every module of the model. */
module Wrappers {

  /** An optional value: the model of Rust's `Option`. */
  datatype Option<+T> = None | Some(value: T)

  /** A value or an error: the model of Rust's `Result`. */
  datatype Result<+T, +E> = Ok(value: T) | Err(error: E) {
    predicate IsFailure() { Err? }

    function PropagateFailure<U>(): Result<U, E>
      requires Err?
    {
      Err(error)
    }

    function Extract(): T
      requires Ok?
    {
      value
    }
  }
}
