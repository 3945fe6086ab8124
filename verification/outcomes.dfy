/** Optional and failure-carrying results for the stack's public boundary.
    Java's `null` return becomes `None`; the two exceptional outcomes of the
    stack become the two `Error` values. */
module Outcomes {

  /** A node reference that may be `null`. */
  datatype Option<+T> = None | Some(value: T)

  /** `NodeReused` is the `AssertionError` raised by `checkPush` when a node
      whose `next` is already set is pushed; `NoSuchElement` is the
      `NoSuchElementException` of an exhausted iterator. */
  datatype Error = NodeReused | NoSuchElement

  datatype Result<+T> = Ok(value: T) | Err(error: Error)
}
