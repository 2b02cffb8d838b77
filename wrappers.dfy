/** Failure-carrying results shared by the index and the evaluator. */
module Wrappers {

  /** A Java reference that may be null. */
  datatype Option<+T> = None | Some(value: T)

  /** The unchecked Java exceptions the modelled code can raise. */
  datatype Exception = IndexOutOfBounds | NullPointer

  /** The outcome of a Java call that returns a value or throws. */
  datatype Result<+T> = Ok(value: T) | Thrown(error: Exception)

  /** The outcome of a Java `void` call that returns normally or throws. */
  datatype Outcome = Pass | Fail(error: Exception)
}
