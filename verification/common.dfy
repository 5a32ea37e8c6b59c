/** Optional values and results shared by the other modules. */
module Common {

  /** A value that may be absent (a regular-expression search that finds nothing,
      a number that does not parse). */
  datatype Option<+T> = None | Some(value: T)

  /** The outcome of a check that either accepts a value or rejects it with a reason. */
  datatype Result<+T, +E> = Ok(value: T) | Err(error: E)
}
