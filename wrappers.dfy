/** Option values used in place of Python's None. */
module Wrappers {

  /** Some(value) or None, as a Python value that may be None. */
  datatype Option<+T> = None | Some(value: T)
}
