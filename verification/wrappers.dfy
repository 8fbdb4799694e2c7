/** `None` for an absent or failed result, `Some(v)` for a value. */
module Wrappers {

  datatype Option<+T> = None | Some(value: T)
}
