/** Small failure-carrying datatypes shared by every module of the model. */
module Wrappers {

  datatype Option<+T> = None | Some(value: T)

  /** The `Result` of the Rust sources: a value or an error. */
  datatype Result<+T, +E> = Ok(value: T) | Err(error: E)

  /**
    The outcome of code that may abort the whole program: an `unwrap` on
    `None`/`Err` or a failed `parse().unwrap()` panics, which ends the call
    (and the request) instead of returning a value.
  */
  datatype Run<+T> = Done(value: T) | Panicked

  /** The `std::io::ErrorKind`s that the route computation produces. */
  datatype ErrorKind = NotFound | InvalidInput | Other

  /** `std::io::Error`: a kind and a message. */
  datatype IoError = IoError(kind: ErrorKind, message: string)
}
