/** Option and Result, the two failure-carrying datatypes the model uses. */
module Wrappers {

  /** `None` stands for an absent value, such as a blank rate cell. */
  datatype Option<+T> = None | Some(value: T)

  /** `Failure` stands for an exception that aborts the run. */
  datatype Result<+R, +E> = Success(value: R) | Failure(error: E)
}
