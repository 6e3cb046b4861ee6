/** Option and Result, the two failure-carrying datatypes the model uses. */
module Wrappers {

  /** A value that may be missing: a pandas cell holding NaN is None. */
  datatype Option<+T> = None | Some(value: T)

  /** An outcome that is either a value or an error. */
  datatype Result<+R, +E> = Ok(value: R) | Err(error: E)
}
