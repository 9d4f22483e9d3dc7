/** Failure-carrying wrappers shared by the decoder and the reader. */
module Results {

  datatype Option<+T> = None | Some(value: T)

  /** Outcome of an operation that either yields a value or reports an error. */
  datatype Result<+T, +E> = Ok(value: T) | Err(error: E)
}
