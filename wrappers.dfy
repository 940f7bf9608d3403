/** Python's `None` next to a value, for the byte counts the dashboard formats. */
module Wrappers {

  datatype Option<+T> = None | Some(value: T)
}
