/** Null references and the unchecked Java exceptions the modelled code can raise. */
module Outcomes {

  /** A Java reference that may be null. */
  datatype Option<+T> = None | Some(value: T)

  /** The unchecked exceptions that escape the modelled methods. String and list index
      errors are all subclasses of IndexOutOfBoundsException and are not told apart. */
  datatype Exception =
    | NullPointer
    | NumberFormat
    | IndexOutOfBounds
    | IllegalArgument

  /** A value, or the exception raised while computing it; usable with `:-`. */
  datatype Result<+T> = Success(value: T) | Failure(error: Exception) {

    predicate IsFailure() {
      Failure?
    }

    function PropagateFailure<U>(): Result<U>
      requires Failure?
    {
      Failure(error)
    }

    function Extract(): T
      requires Success?
    {
      value
    }
  }
}
