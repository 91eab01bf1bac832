/** Optional values and failure-carrying results, standing in for Swift's
    `Optional` and for `throws`. */
module Wrappers {

  datatype Option<+T> = None | Some(value: T)

  /** A value, or the message of the error that was thrown instead. */
  datatype Result<+T> = Success(value: T) | Failure(error: string)
}
