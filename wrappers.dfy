/** Python's `None`-or-value, used for optional captures and for unmatched lines. */
module Wrappers {

  datatype Option<+T> = None | Some(value: T)
}
