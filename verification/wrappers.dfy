/** Failure-compatible option type shared by the other modules. */
module Wrappers {

  /** A value that may be absent: a null pointer, a thrown exception, a failed parse. */
  datatype Option<+T> = None | Some(value: T)
}
