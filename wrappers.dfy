/** The optional value used for the results of scans and runs that can fail. */
module Wrappers {

  datatype Option<+T> = None | Some(value: T)
}
