/** Option and Result values used for the absent record and for raised errors. */
module Results {

  /** A value that may be absent, as Python's `X | None`. */
  datatype Option<+T> = None | Some(value: T)

  /** The outcome of a call that either returns a value or raises an error. */
  datatype Result<+T, +E> = Ok(value: T) | Err(error: E)
}
