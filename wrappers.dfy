/** Option and Result values, and the exceptions the range compiler throws. */
module Wrappers {

  datatype Option<+T> = None | Some(value: T)

  /** The exceptions of the C# code that the model keeps as values. */
  datatype Error =
    | ArgumentOutOfRange  // max <= min given to GenerateNumericRangeRegex
    | Overflow            // a trailing-nines value that does not fit in an int
    | IndexOutOfRange     // element 0 of an empty array

  datatype Result<+R> = Success(value: R) | Failure(error: Error) {
    predicate IsFailure() { Failure? }

    function PropagateFailure<U>(): Result<U>
      requires Failure?
    {
      Failure(error)
    }

    function Extract(): R
      requires Success?
    {
      value
    }
  }
}
