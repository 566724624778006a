/** The Option datatype used for Go's nil-able pointers and interfaces. */
module Wrappers {

  /** `None` models a nil pointer (or a nil `os.FileInfo`), `Some(v)` a present value. */
  datatype Option<+T> = None | Some(value: T)
}
