/** Failure-carrying values shared by the parsers and the validator of the model. */
module Results {

  /** A value that may be absent, used where the page script would get `null`
      or a decoder would throw. */
  datatype Option<+T> = None | Some(value: T)

  /** The outcome of a check that either produces a value or names what failed. */
  datatype Result<+T, +E> = Ok(value: T) | Err(error: E)
}
