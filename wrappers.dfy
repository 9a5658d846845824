/** Python's `None`-or-value, used wherever the source returns an optional value. */
module Wrappers {

  datatype Option<+T> = None | Some(value: T)
}
