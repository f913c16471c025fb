/** Failure-carrying values: the model's stand-in for JavaScript exceptions. */
module Results {

  datatype Option<+T> = None | Some(value: T)

  /** A computation that either yields a value or throws an error. */
  datatype Result<+T, +E> = Ok(value: T) | Err(error: E)

  /** A computation without a value that either completes or throws an error. */
  datatype Outcome<+E> = Pass | Fail(error: E)
}
