/** Optional values and results with an error message: the model of
    std::optional and of the std::runtime_error exceptions the program throws. */
module Wrappers {

  /** std::optional<T>: None is std::nullopt. */
  datatype Option<+T> = None | Some(value: T)

  /** The outcome of an operation that may throw: Err carries the message of
      the exception (or of the failed assertion) that ends it. */
  datatype Result<+T> = Ok(value: T) | Err(msg: string)
}
