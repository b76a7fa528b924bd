/** Failure-aware values shared by the modules of this model. */
module Wrappers {

  /** A value that may be absent: a null pointer, a null reference, `undefined`. */
  datatype Option<+T> = None | Some(value: T)
}
