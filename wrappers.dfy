/** Optional values and results with an error, as used throughout the model
    for pandas' missing values and for Python's exceptions. */
module Wrappers {

  /** A value that may be missing (pandas' NaN / NaT / None). */
  datatype Option<+T> = None | Some(value: T)

  /** The outcome of a step that can raise: a value, or the error raised. */
  datatype Result<+T, +E> = Ok(value: T) | Err(error: E)
}
