/** Failure-carrying wrappers used by the wage lookup: an optional value for the
    "not found" sentinel, and a result for the two errors the lookup can throw. */
module Wrappers {

  /** A value that may be absent. `None` stands for the empty object the lookup
      returns when no record carries the requested prefecture name. */
  datatype Option<+T> = None | Some(value: T)

  /** Either a computed value or the error that interrupted the computation. */
  datatype Result<+R, +E> = Success(value: R) | Failure(error: E)
}
