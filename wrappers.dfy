/** Option and Result values used where the Java code returns null or throws. */
module Wrappers {
  datatype Option<T> = None | Some(value: T)
  {
    predicate IsSome() { Some? }
  }

  datatype Result<T, E> = Ok(value: T) | Err(error: E)
}
