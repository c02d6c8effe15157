/** Option and Result, the two wrappers the model uses for Rust's `Option<T>`
    and for fallible steps (`?` and `Result<T, E>`). */
module Wrappers {

  datatype Option<+T> = None | Some(value: T)

  datatype Result<+R, +E> = Success(value: R) | Failure(error: E)
}
