/** Optional values and success/failure results shared by the registry model. */
module Wrappers {

  /** Kotlin's nullable `T?`: `None` plays the role of `null`. */
  datatype Option<+T> = None | Some(value: T)

  /** Kotlin's `Result<T>`: a failure carries the message of its exception. */
  datatype Result<+T> = Success(value: T) | Failure(message: string)
}
