/** Failure-carrying values for the operations that raise an exception in the source. */
module Results {

  /** A value that may be absent (Python's `None`). */
  datatype Option<+T> = None | Some(value: T)

  /** Either a computed value or the error the source would raise instead. */
  datatype Result<+T, +E> = Ok(value: T) | Err(error: E)
}
