/** Results of operations that may panic or find nothing. */
module Wrappers {

  /** A value that may be missing. */
  datatype Option<T> = None | Some(value: T)

  /** A value, or the message of the failure that replaced it. */
  datatype Result<T> = Success(value: T) | Failure(error: string)
}
