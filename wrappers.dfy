/** Failure values shared by the model: Python's exceptions become values. */
module Wrappers {

  datatype Option<+T> = None | Some(value: T)

  /** The exceptions the modelled code raises on inputs it does not handle. */
  datatype Error =
    | KeyError(key: string)        // a dict subscript on a missing key
    | AssertionError               // a failed `assert`
    | RuntimeError(message: string) // an explicit `raise RuntimeError(...)`

  datatype Result<+T> = Ok(value: T) | Err(error: Error)
}
