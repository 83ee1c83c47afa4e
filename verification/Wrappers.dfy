/** The datatype every module here uses for a value that may be missing. */
module Wrappers {
  datatype Option<+T> = None | Some(get: T)
}
