/** The nullable-value idiom of the source (`T?`, `null`), as an Option. */
module Wrappers {
  datatype Option<+T> = None | Some(value: T)
}
