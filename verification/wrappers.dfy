/** The optional value used wherever the Python code returns `None` for "absent". */
module Wrappers {
  datatype Option<+T> = None | Some(value: T)
}
