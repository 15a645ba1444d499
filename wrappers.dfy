/** The exceptions the modelled Java classes throw, and the Option/Result values used
    in place of a thrown exception or a null reference. */
module Wrappers {

  /** The unchecked exceptions thrown by the modelled code. */
  datatype Error =
    | IllegalArgument     // IllegalArgumentException
    | IndexOutOfBounds    // IndexOutOfBoundsException / ArrayIndexOutOfBoundsException
    | DivideByZero        // com.alegria2d.math.DivideByZeroException

  datatype Option<+T> = None | Some(value: T)

  /** Either the value a Java method returned or the exception it threw. */
  datatype Result<+T> = Success(value: T) | Failure(error: Error) {
    predicate IsFailure() { Failure? }

    function PropagateFailure<U>(): Result<U>
      requires Failure?
    {
      Failure(error)
    }

    function Extract(): T
      requires Success?
    {
      value
    }
  }
}
