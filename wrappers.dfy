/** Optional values and results with an error message, shared by every module. */
module Wrappers {

  /** Python's `Optional[...]`: `None` or a present value. */
  datatype Option<+T> = None | Some(value: T)

  /** A value, or the message of the error that stopped its computation. */
  datatype Result<+T> = Ok(value: T) | Err(msg: string)
}
