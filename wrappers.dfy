/** Option and result types shared by the codec modules. */
module Wrappers {

  datatype Option<+T> = None | Some(value: T)

  /** The outcome of an operation that sink.cpp either completes or aborts with an error. */
  datatype Result<+T, +E> = Ok(value: T) | Err(error: E)
}
