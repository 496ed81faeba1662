/** Option and Result, the two failure-carrying shapes the drafts use
    (Rust's `Option`/`Result`, Python's `None` and raised exceptions). */
module Wrappers {

  datatype Option<+T> = None | Some(value: T)

  datatype Result<+T, +E> = Success(value: T) | Failure(error: E)
}
