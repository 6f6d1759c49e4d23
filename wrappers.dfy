/** Option and Result, the two shapes the model uses for Go's nil values and
    for Go's (value, error) pairs. */
module Wrappers {

  datatype Option<+T> = None | Some(value: T)

  /** The error half of a Go (value, error) result; the message is opaque text. */
  datatype Error = Error(message: string)

  datatype Result<+R> = Success(value: R) | Failure(error: Error)
}
