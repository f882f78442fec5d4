/** Failure-carrying wrappers: a match that may be absent, and an operation that may raise. */
module Results {

  /** A value that may be absent, such as the match object of a regular expression. */
  datatype Option<+T> = None | Some(value: T)

  /** The outcome of an operation that either returns a value or raises an error. */
  datatype Result<+T, +E> = Ok(value: T) | Err(error: E)
}
