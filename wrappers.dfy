/** The conventional Some/None datatype: "a contributor, or none". */
module Wrappers {
  datatype Option<+T> = None | Some(value: T)
}
