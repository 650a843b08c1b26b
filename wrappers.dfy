/** A value that may be absent, as a JavaScript property that may be `undefined`. */
module Wrappers {
  datatype Option<+T> = None | Some(value: T)
}
