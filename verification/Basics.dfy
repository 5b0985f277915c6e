/** Shared value types: optional values and operations that may reject their input. */
module Basics {
  datatype Option<+T> = None | Some(value: T)

  /** The source's exceptions: an operation either returns or throws. */
  datatype Result<+T> = Ok(value: T) | Thrown
}
