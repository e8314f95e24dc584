/** Option and Result values used where the JavaScript code returns
    `undefined`/`null`, -1 from an index search, or hands an error to a callback. */
module Wrappers {

  datatype Option<+T> = None | Some(value: T)

  datatype Result<+R, +E> = Ok(value: R) | Err(error: E)
}
