/** Python's `None`-or-value results and table slots. */
module Wrappers {
  datatype Option<+T> = None | Some(value: T)
}
