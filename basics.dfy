/** Shared wrappers: a file that may fail to open, and an operation that may fail. */
module Basics {

  /** The contents of an input file, or None when the file cannot be opened. */
  datatype Option<T> = None | Some(value: T)

  /** The outcome of a reader that either succeeds or raises an error. */
  datatype Result<T> = Ok(value: T) | Error
}
