/** The optional value used wherever the source has `T | null`, `T | undefined` or a missing `find`. */
module Wrappers {
  datatype Option<+T> = None | Some(value: T)
}
