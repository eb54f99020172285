/** Option and Result: a present/absent value (Rust's `Option`) and the outcome
    of an operation that either returns a value or stops with a panic. */
module Wrappers {

  datatype Option<+T> = None | Some(value: T)

  datatype Result<+T, +E> = Success(value: T) | Failure(error: E)
}
