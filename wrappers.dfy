/** Failure-carrying values shared by the modules of the model. */
module Wrappers {

  /** A value that may be absent. */
  datatype Option<+T> = None | Some(value: T)

  /**
   * The outcome of an operation that returns a value or throws; `Err` names
   * the .NET exception the source would raise at that point.
   */
  datatype Result<+T> = Ok(value: T) | Err(exception: string)
}
