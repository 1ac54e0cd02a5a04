/** Small value types shared by the chain, the table and the iterators. */
module Wrappers {

  /** A value that may be absent; stands in for a Java reference that may be null. */
  datatype Option<+T> = None | Some(value: T)

  /** The two exceptions the iterators throw. */
  datatype IterError = NoSuchElement | ConcurrentModification

  /** The outcome of an iterator call: a value, or the exception it throws. */
  datatype Result<+T> = Ok(value: T) | Err(error: IterError)
}
