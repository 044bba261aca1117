/** The exceptions the byte-access layer raises, as values. */
module Outcomes {

  /** The Java exception a failing operation throws. */
  datatype Error =
    | OutOfBounds             // an offset or length outside a store's capacity
    | ArrayIndexOutOfBounds   // an index outside a Java array
    | BufferUnderflow         // a cursor read past its limit
    | BufferOverflow          // a put into a buffer with no room left
    | UnsupportedOperation    // an accessor a store variant deliberately lacks
    | IllegalArgument         // a binding of the wrong size, a length out of range
    | NullPointer             // a call through a reference that was never set
    | AssertionFailure        // an expected value that the store does not hold
    | UtfDataFormat           // malformed UTF-8 text

  /** The outcome of an operation that returns a value or throws. */
  datatype Result<+T> = Ok(value: T) | Err(error: Error)

  /** The outcome of an operation that returns nothing (or only `this`) or throws. */
  datatype Status = Pass | Fail(error: Error)

  /** A Java reference that may be null. */
  datatype Option<+T> = None | Some(value: T)
}
