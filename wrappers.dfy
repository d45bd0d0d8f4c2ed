/** Failure-carrying results shared by the arena and the queue. */
module Wrappers {

  datatype Option<+T> = None | Some(value: T)

  /** A computed value or the error that stopped the computation. */
  datatype Result<+R, +E> = Success(value: R) | Failure(error: E)

  /** Success without a value, or the error that stopped the operation. */
  datatype Outcome<+E> = Pass | Fail(error: E)

  /**
   * The error kinds the core reports to its callers: the arena throws
   * `std::bad_alloc` (OutOfMemory) and `std::invalid_argument` (UnknownBlock),
   * the queue and its iterator throw `std::runtime_error` (EmptyQueue,
   * EndCursorDereference).
   */
  datatype Error = OutOfMemory | UnknownBlock | EmptyQueue | EndCursorDereference
}
