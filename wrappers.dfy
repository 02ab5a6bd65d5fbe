/** Optional values and failures, used where the source returns `None` or raises. */
module Wrappers {

  datatype Option<+T> = None | Some(value: T)

  /** The only failure the core raises on a caller's behalf: projecting a node
      whose sibling order was never computed. */
  datatype Fault = NotFinalized

  datatype Result<+T> = Ok(value: T) | Err(fault: Fault)
}
