/** Failure-carrying values used throughout the model. */
module Results {

  /** A value that may be missing. */
  datatype Option<+T> = None | Some(value: T)

  /** What a call into a foreign library gives back: its value, or the text
      `str(e)` of the exception it raised. */
  datatype Result<+T> = Ok(value: T) | Err(message: string)
}
