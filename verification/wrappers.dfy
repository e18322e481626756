/** Optional values and the two exception paths of the modelled code. */
module Wrappers {

  /** A Java reference that may be null. */
  datatype Option<+T> = None | Some(value: T)

  /** The exceptions the modelled code throws to its callers. */
  datatype Error =
    | IllegalArgument(message: string)  // java.lang.IllegalArgumentException
    | NullPointer(message: string)      // java.lang.NullPointerException
    | IndexOutOfBounds(index: int)      // java.lang.IndexOutOfBoundsException from List.get

  /** A call that either returns a value or throws. */
  datatype Result<+T> = Success(value: T) | Failure(error: Error)

  /** A call to a void method that either returns normally or throws. */
  datatype Outcome = Pass | Fail(error: Error)
}
