/** Optional values and validation outcomes shared by every module. */
module Wrappers {

  /** A value that may be absent (`undefined` in the source). */
  datatype Option<+T> = None | Some(value: T)

  /** Either a computed value or the list of errors a form reports. */
  datatype Result<+T, +E> = Ok(value: T) | Err(error: E)
}
