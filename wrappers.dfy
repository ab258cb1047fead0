/** The value-or-nothing type used for the edit prompt's reply and the raw storage slot. */
module Wrappers {
  datatype Option<+T> = None | Some(value: T)
}
