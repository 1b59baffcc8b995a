/** The two failure-carrying datatypes the other modules share. */
module Prelude {

  datatype Option<+T> = None | Some(value: T)

  /** A Python function that returns a value or raises. */
  datatype Result<+T, +E> = Ok(value: T) | Err(error: E)
}
