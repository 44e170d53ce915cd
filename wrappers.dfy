/** Rust's `Option` and `Result`, as the response code uses them. */
module Wrappers {

  datatype Option<+T> = None | Some(value: T)

  /** `HttpResult<T>` is `Result<T, HttpError>`; `Err` aborts construction. */
  datatype Result<+T, +E> = Ok(value: T) | Err(error: E)
}
