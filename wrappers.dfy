/** Failure-carrying results used across the model: `Option` for the
    source's `Option<T>` returns, `Result` for generation-time aborts. */
module Wrappers {

  datatype Option<+T> = None | Some(value: T)

  datatype Result<+T, +E> = Success(value: T) | Failure(error: E)
}
