/** Outcomes of the evaluation toolkit's operations: a value, or the exception the code raises. */
module Results {

  /** The exceptions the toolkit raises. */
  datatype Error =
    | UnknownBoxFormat  // a box format string other than "corners" or "midpoint"
    | DivisionByZero    // the final mean taken over an empty list of classes
    | TypeMismatch      // a call whose arguments have the wrong type (Python's TypeError)

  datatype Result<T> = Ok(value: T) | Err(error: Error)
}
