/** Failure-aware result types shared by every component of the model. */
module Wrappers {

  datatype Option<+T> = None | Some(value: T)

  /** The outcome of an operation that may return an error; the error text is not modelled. */
  datatype Result<+T> = Err | Ok(value: T)
}
