/** Small failure-compatible datatype shared by the modules of this project. */
module Wrappers {

  /** A value that may be missing: a file that does not exist, a pattern that does not match. */
  datatype Option<+T> = None | Some(value: T)
}
