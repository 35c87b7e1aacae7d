/** Optional values and results with an error, shared by every module of the model. */
module Outcomes {

  /** A value that may be missing: a nullable column, an absent form field, an empty cell. */
  datatype Option<+T> = None | Some(value: T)

  /** The result of an operation that can raise: `Err` carries what was raised. */
  datatype Result<+T, +E> = Ok(value: T) | Err(error: E)
}
