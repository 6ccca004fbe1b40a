/** Failure-carrying result types shared by the model. */
module Wrappers {

  /** A value that may be absent; `None` stands for `std::nullopt` and for
      every other "no value" outcome of the modelled program. */
  datatype Option<+T> = None | Some(value: T)

  /** Either a value or an error. */
  datatype Result<+R, +E> = Ok(value: R) | Err(error: E)
}
