/** Failure-carrying result types shared by every module of the model.
    A C function that returns NULL, a Python function that raises, or a
    JavaScript value that is `undefined` or `NaN` is modelled with these
    instead of a precondition that rules the case out. */
module Wrappers {

  /** A value that may be missing: NULL, None, undefined, NaN. */
  datatype Option<+T> = None | Some(value: T) {

    /** The value, or `default` when there is none. */
    function GetOr(default: T): T {
      match this
      case Some(v) => v
      case None => default
    }
  }

  /** A computation that either produces a value or fails with an error. */
  datatype Result<+R, +E> = Success(value: R) | Failure(error: E) {

    predicate IsFailure() {
      Failure?
    }

    function PropagateFailure<U>(): Result<U, E>
      requires Failure?
    {
      Failure(error)
    }

    function Extract(): R
      requires Success?
    {
      value
    }
  }
}
