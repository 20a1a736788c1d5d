/** Option, standing for a Go pointer result that may be nil. */
module Wrappers {

  datatype Option<+T> = None | Some(value: T)
}
