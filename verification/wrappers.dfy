/** Option and Result datatypes shared by the modules of the chat widget model. */
module Wrappers {

  datatype Option<+T> = None | Some(value: T)

  /** The outcome of an operation that may throw in the original program. */
  datatype Result<+R, +E> = Success(value: R) | Failure(error: E)
}
