/** The ways an operation of the codec can end other than normally. */
module Outcomes {

  datatype Option<+T> = None | Some(value: T)

  /** Why an operation failed.
      ShortRead: the stream ended after `consumed` bytes, fewer than the kind's width
      (Go reports this as io.EOF or io.ErrUnexpectedEOF).
      KindMismatch: Less was asked to order values of two different kinds. */
  datatype Fault = ShortRead(consumed: nat) | KindMismatch

  /** The result of an operation that panics on failure: either it returns a
      value, or it aborts the calling goroutine with the given fault. */
  datatype Outcome<+T> = Done(value: T) | Abort(fault: Fault)
}
