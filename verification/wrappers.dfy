/** A value that may be absent: JavaScript's `undefined` / `null` in the modelled code. */
module Wrappers {
  datatype Option<+T> = None | Some(value: T)
}
