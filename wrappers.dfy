/** The optional value used for "no preview rectangle", "no frame yet" and
    "the name does not match the pattern". */
module Wrappers {
  datatype Option<+T> = None | Some(value: T)
}
