/** Option and Result, and the error kinds the solvers report. */
module Wrappers {

  datatype Option<+T> = None | Some(value: T)

  /**
   * The error kinds a part can fail with. Opening and reading the input
   * file is outside the model, so there is no IO kind here.
   */
  datatype Error = ParseIntError | Other(message: string)

  datatype Result<+T> = Ok(value: T) | Err(error: Error)
}
