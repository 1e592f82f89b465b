/** The "not found" result of the container's lookups, in place of JavaScript's `null`. */
module Wrappers {

  datatype Option<+T> = None | Some(value: T)
}
