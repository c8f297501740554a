/** Option and Result, the failure-carrying values used throughout the model.
    A Go function returning `(T, error)` becomes a `Result<T, string>`; one
    returning only `error` becomes an `Option<string>` (None means nil). */
module Wrappers {

  datatype Option<+T> = None | Some(value: T) {
    predicate IsFailure() { None? }

    function PropagateFailure<U>(): Option<U>
      requires None?
    {
      None
    }

    function Extract(): T
      requires Some?
    {
      value
    }
  }

  datatype Result<+T, +E> = Success(value: T) | Failure(error: E) {
    predicate IsFailure() { Failure? }

    function PropagateFailure<U>(): Result<U, E>
      requires Failure?
    {
      Failure(error)
    }

    function Extract(): T
      requires Success?
    {
      value
    }
  }

  /** The outcome a store or transport call is told to have: None lets the
      call succeed, Some(message) makes it fail with that error text. */
  type Fault = Option<string>
}
