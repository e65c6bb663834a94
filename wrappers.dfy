/** Option and Result values: the model's stand-in for the source's exceptions
    and its `bool try_...(…, T &out)` pattern. */
module Wrappers {

  datatype Option<T> = None | Some(value: T)

  datatype Result<T, E> = Ok(value: T) | Err(error: E)
}
