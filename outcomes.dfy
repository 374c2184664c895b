/** The failure outcomes of the calculator. Java signals them with exceptions;
    here every operation that can throw returns one of these values instead. */
module Outcomes {

  /** The exception classes the core can raise. */
  datatype Error =
    | Invalid      // IllegalArgumentException (NumberFormatException is one)
    | DivByZero    // ArithmeticException
    | OutOfBounds  // ArrayIndexOutOfBoundsException

  /** The value of an operation that returns a result or throws. */
  datatype Result<+T> = Ok(value: T) | Err(error: Error) {
    predicate IsFailure() { Err? }
    function PropagateFailure<U>(): Result<U> requires Err? { Err(error) }
    function Extract(): T requires Ok? { value }
  }

  /** The outcome of a void operation that may throw. */
  datatype Status = Pass | Fail(error: Error)

  datatype Option<+T> = None | Some(value: T)
}
