/** The Option type used wherever the program returns None or an empty tuple. */
module Wrappers {
  datatype Option<+T> = None | Some(value: T)
}
