/** Option and Result, used for JavaScript's `undefined` and for thrown errors. */
module Wrappers {

  datatype Option<+T> = None | Some(value: T)

  /** `Err` carries the message of the Error the source throws or returns. */
  datatype Result<+T> = Ok(value: T) | Err(message: string)
}
