/** Failure-carrying return values used throughout the model: `Option` for a value
    that may be absent, `Result` for a collaborator call that may fail with an error message. */
module Results {

  datatype Option<+T> = None | Some(value: T)

  /** The Go pair `(value, error)`: `Err` carries the text `err.Error()` would print. */
  datatype Result<+T> = Ok(value: T) | Err(error: string)
}
