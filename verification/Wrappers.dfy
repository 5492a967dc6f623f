/** An optional value, for the nullable references and null-returning readers of the repository. */
module Wrappers {
  datatype Option<+T> = None | Some(value: T)
}
