/** Option and Result, the two failure-carrying datatypes the scheduler model uses. */
module Wrappers {

  /** A value that may be absent, the counterpart of Rust's `Option`. */
  datatype Option<+T> = None | Some(value: T)

  /** The outcome of a configuration step that can be rejected. */
  datatype Result<+T, +E> = Success(value: T) | Failure(error: E)
}
