/** The outcome of an operation that the script ends with an exception on failure. */
module Wrappers {
  datatype Result<T, E> = Ok(value: T) | Err(error: E)
}
