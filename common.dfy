/** Optional values and results with an error, shared by every module of the model. */
module Common {

  /** A value that may be absent: a missing JSON field, a NaN parse, an unlimited deadline. */
  datatype Option<+T> = None | Some(value: T)

  /** The outcome of a step that either returns a value or throws an error. */
  datatype Result<+T, +E> = Ok(value: T) | Err(error: E)
}
