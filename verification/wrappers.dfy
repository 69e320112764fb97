/** Option and Result, and what a store reports when it has no value to give. */
module Wrappers {

  datatype Option<+T> = None | Some(value: T)

  datatype Result<+T, +E> = Ok(value: T) | Err(error: E)

  datatype StoreError =
    | KeyNotFound
    | DataInconsistency
    | DeserializationError
    | AlreadyExists
}
