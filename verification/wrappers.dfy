/** Failure-carrying return types used across the model: `Option` for the
    source's `Optional[...]` / `None` returns, `Result` for calls that raise. */
module Wrappers {

  datatype Option<+T> = None | Some(value: T)

  datatype Result<+R, +E> = Success(value: R) | Failure(error: E)
}
