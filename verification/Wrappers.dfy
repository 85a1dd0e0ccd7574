/** Option and Result, used for SQL NULLs, absent rows and thrown errors. */
module Wrappers {
  datatype Option<+T> = None | Some(value: T)

  datatype Result<+R> = Ok(value: R) | Err(error: string)
}
