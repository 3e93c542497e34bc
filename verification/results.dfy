/** Outcome types standing in for Java's `null` and its exceptions. */
module Results {

  /** A value that may be absent: `None` plays the role of a Java `null` reference. */
  datatype Option<+T> = None | Some(value: T)

  /** The three exception classes the converter throws. */
  datatype Error =
    | IllegalArgument   // java.lang.IllegalArgumentException: a null argument
    | NumberFormat      // java.lang.NumberFormatException: a malformed numeral
    | Arithmetic        // java.lang.ArithmeticException: a value too large for an int

  /** Either a normal return value or the exception that was thrown instead. */
  datatype Result<+T> = Ok(value: T) | Err(error: Error)
}
