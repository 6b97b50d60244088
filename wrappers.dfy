/** Option and Result, the two failure-carrying shapes the modelled code returns. */
module Wrappers {

  datatype Option<+T> = None | Some(value: T)

  /** `Ok(())` stands for the source's `Ok(())`; `Err(e)` carries the reported error. */
  datatype Result<+T, +E> = Ok(value: T) | Err(error: E)
}
