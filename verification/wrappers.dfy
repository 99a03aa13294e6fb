/** An optional value; `None` stands for Python's `None`. */
module Wrappers {

  /** `Some(v)` holds a value; `None` marks its absence. */
  datatype Option<+T> = None | Some(value: T)
}
