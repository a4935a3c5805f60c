/** Optional values and the ways a Java method of the modelled code completes. */
module Outcomes {

  /** A Java reference that may be null. */
  datatype Option<+T> = None | Some(value: T)

  /** The unchecked Java exceptions the modelled code can raise. */
  datatype Exception = NullPointer | IndexOutOfBounds | ClassCast

  /** How a `void` Java method completes: normally, or by throwing. */
  datatype Outcome = Normal | Thrown(exception: Exception)

  /** How a value-returning Java method completes. */
  datatype Result<+T> = Ok(value: T) | Failed(exception: Exception)
}
