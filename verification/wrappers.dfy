/** The optional value used wherever the source has `None` or an exception that is caught. */
module Wrappers {

  datatype Option<+T> = None | Some(value: T)
}
