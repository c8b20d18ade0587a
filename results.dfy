/** Failure-carrying wrappers shared by the modules of this project. */
module Results {

  /** A value that may be absent; `None` plays the part of `undefined`. */
  datatype Option<+T> = None | Some(value: T)

  /** The outcome of an operation that the source ends by throwing. */
  datatype Result<+T, +E> = Success(value: T) | Failure(error: E)
}
