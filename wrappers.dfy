/** Failure-carrying values used for the cluster clients' error returns. */
module Wrappers {

  /** A value that may be absent; `None` stands for Go's nil. */
  datatype Option<+T> = None | Some(value: T)

  /** The result of a client call that returns a value or an error. */
  datatype Result<+T> = Ok(value: T) | Err

  /** The result of a call that returns only an error (nil on success). */
  datatype Outcome = Pass | Fail
}
