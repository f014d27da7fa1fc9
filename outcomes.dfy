/** Explicit stand-ins for Java's `null` results and thrown exceptions. */
module Outcomes {

  /** A reference that may be `null`: `None` is Java's `null`. */
  datatype Option<+T> = None | Some(value: T)

  /** The exceptions the caches can raise. */
  datatype Error = NullPointer | IndexOutOfBounds

  /** The outcome of a Java method that returns a value or throws. */
  datatype Result<+T> = Ok(value: T) | Err(error: Error)

  /** The outcome of a `void` Java method: it returns normally or throws. */
  datatype Outcome = Pass | Fail(error: Error)
}
