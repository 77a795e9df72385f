/** The optional value used for fields that may be unset or null. */
module Wrappers {
  datatype Option<+T> = None | Some(value: T)
}
