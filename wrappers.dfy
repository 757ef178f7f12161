/** Option and Result, the two wrappers the rest of the model uses. */
module Wrappers {

  datatype Option<+T> = None | Some(value: T)

  /** `Err` carries the text of the exception the source would raise. */
  datatype Result<+T> = Ok(value: T) | Err(error: string)
}
