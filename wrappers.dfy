/** Absence and failure values, used where the source returns None or raises. */
module Wrappers {

  /** A value that may be missing: Python's None, or SQL's NULL in a nullable column. */
  datatype Option<+T> = None | Some(value: T)

  /** The outcome of a statement that can fail with an error value. */
  datatype Result<+T, +E> = Ok(value: T) | Err(error: E)
}
