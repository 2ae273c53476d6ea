/** Failure-carrying result types shared by the modules of this model. */
module Wrappers {

  /** A value that may be missing; the model's rendering of Python's `None`. */
  datatype Option<+T> = None | Some(value: T)

  /** Either a computed value or the reason the computation stopped. */
  datatype Result<+T, +E> = Ok(value: T) | Err(error: E)
}
