/** A value that may be missing: a file that may not exist, a result file that
    may not be written. */
module Wrappers {

  datatype Option<+T> = None | Some(value: T)
}
