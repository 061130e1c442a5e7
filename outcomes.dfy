/** Option and Result values for the model's partial operations. */
module Outcomes {

  datatype Option<+T> = None | Some(value: T)

  /** The outcome of an operation that the source lets throw or panic. */
  datatype Result<+T, +E> = Ok(value: T) | Err(error: E)
}
