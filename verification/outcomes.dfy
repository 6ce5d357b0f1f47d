/** Results of the calculator's operations. Every exception a Calculator
    method throws becomes an `Err` value carrying the exception's kind and
    message; a normal return becomes `Ok`. */
module Outcomes {

  /** The exception kinds the calculator raises: ArgumentException,
      DivideByZeroException, and the OverflowException that Math.Abs throws
      for int.MinValue. */
  datatype Error =
    | InvalidArgument(message: string)
    | DivideByZero(message: string)
    | Overflow(message: string)

  /** A value or the error that replaced it. Usable with `:-`, so a failing
      step propagates to the caller unchanged, as an exception would. */
  datatype Result<+T> = Ok(value: T) | Err(error: Error) {

    predicate IsFailure() {
      Err?
    }

    function PropagateFailure<U>(): Result<U>
      requires Err?
    {
      Err(error)
    }

    function Extract(): T
      requires Ok?
    {
      value
    }
  }
}
