/** Failure-carrying return values shared by the mcpack decoder and the nshead codec. */
module Results {

  /** The value of an operation that either succeeds or reports one error value. */
  datatype Result<+T, +E> = Ok(value: T) | Err(error: E)

  /** A value that may be absent, used for error slots that are nil on success. */
  datatype Option<+T> = None | Some(value: T)
}
