/**
 * Shared result types. Java methods of the modelled library either return a
 * value, return `null`, or throw; the model writes the first two as `Option`
 * and the third as the `Err` case of `Result`, naming the Java exception.
 */
module Wrappers {

  datatype Option<+T> = None | Some(value: T)
  {
    function GetOr(default: T): T
    {
      if Some? then value else default
    }
  }

  /** The Java exception classes the modelled code throws. */
  datatype Error =
    | NullPointer        // NullPointerException
    | IllegalArgument    // IllegalArgumentException
    | IndexOutOfBounds   // ArrayIndexOutOfBoundsException and friends
    | NoSuchElement      // NoSuchElementException
    | NumberFormat       // NumberFormatException
    | Arithmetic         // ArithmeticException
    | NegativeArraySize  // NegativeArraySizeException
    | Runtime            // a plain RuntimeException with a message

  datatype Result<+T> = Ok(value: T) | Err(error: Error)
  {
    predicate IsFailure()
    {
      Err?
    }

    function PropagateFailure<U>(): Result<U>
      requires Err?
    {
      Err(error)
    }

    function Extract(): T
      requires Ok?
    {
      value
    }
  }
}
