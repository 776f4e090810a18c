/** Optional values and error-or-value results, standing in for Python's
    `None`/`NaN` and for raised exceptions. */
module Wrappers {

  datatype Option<+T> = None | Some(value: T)

  datatype Result<+R, +E> = Ok(value: R) | Err(error: E)
}
