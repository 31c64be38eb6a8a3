/** Failure-carrying wrappers shared by every module of the model. */
module Results {

  /** A value that may be missing. */
  datatype Option<+T> = None | Some(value: T)

  /** Either a value or the error the source reports (a thrown exception or an error return). */
  datatype Result<+T, +E> = Ok(value: T) | Err(error: E)
}
