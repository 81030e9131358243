/** The one error kind of both containers: an underflow, raised by `top` and
    `pop` on an empty heap or stack (the source throws `std::underflow_error`). */
module Errors {

  datatype Error = Underflow

  /** Outcome of an operation that returns a value or throws. */
  datatype Result<T> = Ok(value: T) | Err(error: Error)

  /** Outcome of a `void` operation that may throw. */
  datatype Outcome = Pass | Fail(error: Error)
}
