/** Optional values and results, used where the source returns an
    `Optional` or throws a `RuntimeException`. */
module Wrappers {

  datatype Option<+T> = None | Some(value: T)

  /** `Err` stands for a `RuntimeException` thrown by the service; its
      message is carried by the error value. */
  datatype Result<+T, +E> = Ok(value: T) | Err(error: E)
}
