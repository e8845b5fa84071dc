/** The failure-carrying result used where the Go code panics on bad input. */
module Wrappers {

  datatype Result<+T, +E> = Ok(value: T) | Err(error: E)
}
