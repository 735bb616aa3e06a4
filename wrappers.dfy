/** Failure-compatible result types shared by the two modelled components. */
module Wrappers {

  /** An optional value: a query parameter that may be absent. */
  datatype Option<+T> = None | Some(value: T)

  /** Either a value or the error that was raised instead of producing one. */
  datatype Result<+T, +E> = Ok(value: T) | Err(error: E)
}
