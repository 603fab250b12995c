/** What an operation gives that may have nothing to give. */
module Wrappers {
  datatype Option<+T> = None | Some(value: T)
}
