/** The "value or nothing" result used where the source returns `undefined`. */
module Wrappers {
  datatype Option<+T> = None | Some(value: T)
}
