/** Small value types shared by every module of the model. */
module Wrappers {

  /** A nullable Java reference. */
  datatype Option<T> = None | Some(value: T)

  /** The Java exceptions that the modelled code raises or catches. */
  datatype Fault =
    | DivisionByZero      // ArithmeticException thrown by BigDecimal.divide
    | RoundingNecessary   // ArithmeticException thrown for RoundingMode.UNNECESSARY
    | Unbalanced          // IllegalStateException thrown by Expression.evaluate
    | IllegalArgument     // IllegalArgumentException thrown by a settings check
    | NullPointer         // NullPointerException from dereferencing a null value
    | NumberFormat        // NumberFormatException thrown by new BigDecimal(String)
    | IndexOutOfBounds    // StringIndexOutOfBoundsException from a StringBuilder edit

  /** The outcome of a Java call that may throw. */
  datatype Result<T> = Ok(value: T) | Err(fault: Fault)
}
