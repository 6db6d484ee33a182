/** A value that may be absent; stands for the source's `T | null`. */
module Wrappers {
  datatype Option<+T> = None | Some(value: T)
}
