/** Optional values and results with an error, shared by the other modules. */
module Wrappers {

  /** A value that may be missing; stands for a Java reference that may be null: an exhausted
      parser's token, an unconfigured type deserializer. */
  datatype Option<+T> = None | Some(value: T)

  /** The outcome of an operation that either produces a value or throws. */
  datatype Result<+T, +E> = Ok(value: T) | Err(error: E)
}
