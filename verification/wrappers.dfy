/** The two outcome types of the model: a lookup that may find nothing,
    and a step that may raise. Each defines `IsFailure`, `PropagateFailure`
    and `Extract`, so a step can hand on the first exception with `:-`. */
module Wrappers {

  /** A lookup's answer; `None` plays the part of the NaT that `.min()` or
      `.max()` of an empty selection gives. */
  datatype Option<+T> = None | Some(value: T) {

    predicate IsFailure() {
      None?
    }

    function PropagateFailure<U>(): Option<U>
      requires None?
    {
      None
    }

    function Extract(): T
      requires Some?
    {
      value
    }
  }

  /** A step's answer: the value it computes, or the exception it raises. */
  datatype Result<+R, +E> = Success(value: R) | Failure(error: E) {

    predicate IsFailure() {
      Failure?
    }

    function PropagateFailure<U>(): Result<U, E>
      requires Failure?
    {
      Failure(error)
    }

    function Extract(): R
      requires Success?
    {
      value
    }
  }
}
