/** Result types shared by the modules: the source's `Option` and `Result`, and the outcome
    of a computation that may panic (a debug-build overflow, a shift of 64 or more bits,
    an `unwrap` of nothing). */
module Outcome {
  datatype Option<T> = None | Some(value: T)

  datatype Result<T, E> = Ok(value: T) | Err(error: E)

  /** A call either returns its value or panics. */
  datatype Run<T> = Returns(value: T) | Panics
}
