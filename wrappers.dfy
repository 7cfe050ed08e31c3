/** The "value or nothing" type that stands for Python's `None` sentinel. */
module Wrappers {

  datatype Option<+T> = None | Some(value: T)
}
