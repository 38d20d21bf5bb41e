/** Failure-carrying values shared by the other modules. */
module Wrappers {

  datatype Option<+T> = None | Some(value: T)

  /** A result, or the exception the source throws (one constructor: no caller
      in the model distinguishes messages). */
  datatype Result<+T> = Ok(value: T) | Thrown
}
