/** Nullable values and failing calls. */
module Wrappers {

  /** A Java reference that may be null: `None` stands for null. */
  datatype Option<+T> = None | Some(value: T)

  /** The outcome of a service call that can throw: `Err` carries the exception message. */
  datatype Result<+T> = Ok(value: T) | Err(message: string)
}
