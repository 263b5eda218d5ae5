/** Optional values and error returns, used in place of JavaScript's
    `undefined`/`null` and of the commands' `this.error(...)` aborts. */
module Wrappers {

  datatype Option<+T> = None | Some(value: T)

  datatype Result<+T, +E> = Ok(value: T) | Err(error: E)
}
