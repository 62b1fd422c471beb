/** The two result shapes the models share. */
module Wrappers {

  /** A value that may be absent: a nil pointer, or a lookup that finds nothing. */
  datatype Option<+T> = None | Some(value: T)

  /** The outcome of a call that may fail. Which message it fails with is not modelled. */
  datatype Result<+T> = Ok(value: T) | Err
}
