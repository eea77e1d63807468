/** The Option datatype used wherever the source works with a value or Python's None. */
module Wrappers {

  /** A value that may be absent: Python's `None` becomes `None`. */
  datatype Option<+T> = None | Some(value: T)
}
