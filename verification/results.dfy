/** Failure-compatible wrappers shared by the whole model. */
module Results {

  /** A value that may be missing (JavaScript `undefined`/`null`). */
  datatype Option<+T> = None | Some(value: T)

  /** The outcome of an operation that can throw: the thrown error keeps only its message. */
  datatype Result<+T> = Success(value: T) | Failure(error: string)
}
