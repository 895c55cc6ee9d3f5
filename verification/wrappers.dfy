/** Optional values and fallible results used throughout the model. */
module Wrappers {

  datatype Option<+T> = None | Some(value: T)

  /** What a JavaScript `throw` carries, as far as the model needs to tell them apart. */
  datatype Thrown =
    | RemoteError   // a rejected request to the content platform
    | TypeError     // a JavaScript TypeError raised by the code itself

  datatype Result<+T> = Ok(value: T) | Err(error: Thrown)
}
