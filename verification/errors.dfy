/** The exceptions the library throws, as values. */
module Errors {

  /** IllegalArgumentException, IndexOutOfBoundsException and ArithmeticException. */
  datatype Error =
    | IllegalArgument(message: string)
    | IndexOutOfBounds(index: int)
    | Arithmetic(message: string)

  /** Either the value an operation returns or the exception it throws. */
  datatype Result<+T> = Success(value: T) | Failure(error: Error)
}
