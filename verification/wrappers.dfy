/** An optional value: stands for Python's `T | None`. */
module Wrappers {

  datatype Option<+T> = None | Some(value: T)
}
