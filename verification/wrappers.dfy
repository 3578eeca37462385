/** Wrappers used throughout the model: `Option` for a value that may be
    absent (a null row, an exhausted iterator, a missing capability) and
    `Result` for an operation whose source panics on some inputs. */
module Wrappers {

  datatype Option<+T> = None | Some(value: T)

  datatype Result<+R, +E> = Success(value: R) | Failure(error: E)
}
