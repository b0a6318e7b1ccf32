/** The optional value used wherever the server reads a file that may be
    missing or a field that may be undefined. */
module Wrappers {

  datatype Option<+T> = None | Some(value: T)
}
