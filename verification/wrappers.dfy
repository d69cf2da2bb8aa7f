/** Option and Result, the two failure-carrying datatypes the model uses in
    place of the source's `Option<T>` and `Result<T, String>`. */
module Wrappers {

  datatype Option<+T> = None | Some(value: T)

  datatype Result<+T, +E> = Ok(value: T) | Err(error: E)
}
