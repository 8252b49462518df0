/** Failure-carrying results shared by the decoder modules. */
module Wrappers {

  datatype Option<+T> = None | Some(value: T)

  /** A decode step either yields a value or stops with the error the source raises there. */
  datatype Result<+T, +E> = Ok(value: T) | Err(error: E)
}
