/** Failure-carrying wrappers used across the model. */
module Outcomes {

  /** A value that may be absent; stands for a Java reference that may be `null`. */
  datatype Option<+T> = None | Some(value: T)

  /** Either a value or the error the Java code would have thrown. */
  datatype Result<+T, +E> = Ok(value: T) | Err(error: E)
}
