/** The conventional optional value, used for parses that can fail and for
    the "Invalid Date" state of a date. */
module Wrappers {
  datatype Option<+T> = None | Some(value: T)
}
