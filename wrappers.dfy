/** The optional value used wherever the application answers "no such thing" with None. */
module Wrappers {
  datatype Option<+T> = None | Some(value: T)
}
