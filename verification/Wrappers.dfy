module Wrappers {
  /** A value that may be missing: null pointers, failed parses, marks not yet set. */
  datatype Option<+T> = None | Some(value: T)
}
