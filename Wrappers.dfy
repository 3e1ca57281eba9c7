/** Failure-carrying values shared by the models of the card deck and the vector. */
module Wrappers {

  /** A value that may be absent. */
  datatype Option<T> = None | Some(value: T)

  /** The outcome of an operation that either returns a value or raises an error. */
  datatype Result<T, E> = Ok(value: T) | Err(error: E)
}
