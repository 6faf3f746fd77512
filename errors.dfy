/**
  The Python run-time exceptions that the least-squares engine can raise,
  and a failure-compatible result type that carries either a value or the
  exception that ended the computation.
 */
module Errors {

  /** The exceptions the core raises itself (shape errors are preconditions). */
  datatype PyError =
    | ValueError          // `list.index` did not find the value
    | UnboundLocalError   // a local (`scale`, `index`) read before any assignment
    | ZeroDivisionError   // division by an integer zero

  datatype Option<+T> = None | Some(value: T)

  datatype Result<+T> = Ok(value: T) | Raise(error: PyError) {

    predicate IsFailure() {
      Raise?
    }

    function PropagateFailure<U>(): Result<U>
      requires Raise?
    {
      Raise(error)
    }

    function Extract(): T
      requires Ok?
    {
      value
    }
  }

  /** A computation that either completes or raises, with no value. */
  datatype Outcome = Done | Raised(error: PyError) {

    predicate IsFailure() {
      Raised?
    }

    function PropagateFailure<U>(): Result<U>
      requires Raised?
    {
      Raise(error)
    }
  }
}
