/** The result of a lookup or of a step that can fail. */
module Wrappers {
  datatype Option<+T> = None | Some(value: T)
}
