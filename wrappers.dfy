/** Failure-compatible value types shared by the model: a value that may be
    absent (Go's nil pointer) and a value-or-error outcome (Go's `(T, error)`). */
module Wrappers {

  datatype Option<+T> = None | Some(value: T)

  datatype Result<+T, +E> = Success(value: T) | Failure(error: E)
}
