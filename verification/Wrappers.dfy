/** Failure-carrying values shared by every module. */
module Wrappers {
  datatype Option<+T> = None | Some(value: T)

  /** `Err` stands for the source's `FluxumError`; its message text is not modelled. */
  datatype Result<+T> = Ok(value: T) | Err
}
