/** Results of the registry operations: the Kotlin code throws exceptions,
    the model returns them as values. */
module RateLimitResults {

  /** The exceptions the two limiters throw. */
  datatype Error =
    | UserAlreadyPresent   // addUser on a registered id (IllegalArgumentException)
    | UserNotPresent       // shouldAllowServiceCall on an unregistered id (IllegalArgumentException)
    | DivisionByZero       // getBucket with a zero window (ArithmeticException)

  /** A call that either yields a value or throws. */
  datatype Result<T> = Ok(value: T) | Err(error: Error)

  /** A call that yields nothing or throws. */
  datatype Outcome = Pass | Fail(error: Error)
}
