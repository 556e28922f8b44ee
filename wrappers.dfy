/** Option and Result, the two failure-carrying shapes every other module uses. */
module Wrappers {

  /** A value that may be absent: Rust's `Option<T>`, or a TypeScript `T | null`. */
  datatype Option<+T> = None | Some(value: T)

  /** Rust's `Result<T, E>`: a success value or an error value. */
  datatype Result<+T, +E> = Ok(value: T) | Err(error: E)
}
