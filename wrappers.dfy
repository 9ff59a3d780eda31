/** Optional values and results with an error message, used in place of
    JavaScript's `null` and of thrown errors. */
module Wrappers {

  datatype Option<+T> = None | Some(value: T)

  datatype Result<+T> = Ok(value: T) | Err(message: seq<char>)
}
