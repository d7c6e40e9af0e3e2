/** Failure-carrying result types shared by the store and the web layer. */
module Wrappers {

  /** A value that may be absent (a missing file, no occurrence found). */
  datatype Option<+T> = None | Some(value: T)

  /** The value of a Python call that either returns or raises. */
  datatype Result<+T, +E> = Ok(value: T) | Err(error: E)
}
