/** Option and Result, the two shapes every lookup and every fallible call of the
    lab logbook returns. */
module Wrappers {

  datatype Option<+T> = None | Some(value: T)

  datatype Result<+T, +E> = Ok(value: T) | Err(error: E)

  /** An HTTP error as the routers raise it: a status code and a detail message. */
  datatype HttpError = HttpError(status: nat, detail: string)
}
