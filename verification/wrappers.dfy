/** The optional value used wherever the Python code can raise or return None. */
module Wrappers {
  datatype Option<+T> = None | Some(value: T)
}
