/** Failure-carrying values shared by every module: `Option` for the crate's
    `Option<T>` returns and `Result` for its `io::Result<T>` returns. */
module Wrappers {

  datatype Option<+T> = None | Some(value: T)

  datatype Result<+R, +E> = Success(value: R) | Failure(error: E)
}
