/** Failure-compatible wrappers used across the model. */
module Wrappers {

  /** An optional value; usable with `:-` in expressions. */
  datatype Option<+T> = None | Some(value: T) {

    predicate IsFailure() {
      None?
    }

    function PropagateFailure<U>(): Option<U>
      requires None?
    {
      None
    }

    function Extract(): T
      requires Some?
    {
      value
    }
  }

  /** A value or the error that the PHP code raises instead of returning one. */
  datatype Result<+T, +E> = Success(value: T) | Failure(error: E)
}
