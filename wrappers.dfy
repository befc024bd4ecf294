/** Failure-compatible wrappers shared by the parser and the evaluator. */
module Wrappers {

  datatype Option<+T> = None | Some(value: T)

  /** Success or failure; usable with `:-` like Rust's `?` operator. */
  datatype Result<+T, +E> = Success(value: T) | Failure(error: E) {

    predicate IsFailure() {
      Failure?
    }

    function PropagateFailure<U>(): Result<U, E>
      requires Failure?
    {
      Failure(error)
    }

    function Extract(): T
      requires Success?
    {
      value
    }
  }
}
