/** The optional value used throughout for columns and arguments that may be absent, and pairs of strings. */
module Wrappers {
  datatype Option<+T> = None | Some(value: T)

  type Pair = (string, string)
}
