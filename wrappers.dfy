/** Failure-carrying values shared by the classifier and the extractor. */
module Wrappers {

  datatype Option<+T> = None | Some(value: T)

  /** Ok(value), or Err(msg) where msg is the text of a raised Python exception. */
  datatype Result<+T> = Ok(value: T) | Err(msg: string)
}
