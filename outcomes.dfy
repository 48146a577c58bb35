/** Option and Result, the two failure-carrying datatypes the model uses. */
module Outcomes {

  datatype Option<+T> = None | Some(value: T)

  /** Ok carries a computed value; Err stands for an exception the source raises. */
  datatype Result<+T, +E> = Ok(value: T) | Err(error: E)
}
