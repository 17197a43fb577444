/** Java's nullable references, written as an explicit absent value. */
module Wrappers {

  /** `None` stands for `null`; `Some(v)` for a present reference to `v`. */
  datatype Option<+T> = None | Some(value: T)
}
