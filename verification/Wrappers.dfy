/** A value that may be missing: a null pointer, or an exception that was not thrown. */
module Wrappers {

  datatype Option<+T> = None | Some(value: T)
}
