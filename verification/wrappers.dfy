/** Option and Result, the two ways the recipe module reports "absent" and "failed". */
module Wrappers {

  /** A value that may be absent: the store's `null`. */
  datatype Option<+T> = None | Some(value: T)

  /** The outcome of a statement that may be refused by a table constraint. */
  datatype Result<+T, +E> = Success(value: T) | Failure(error: E)
}
