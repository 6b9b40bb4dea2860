/** The optional value used wherever PHP code may produce nothing (null, false, an unset variable). */
module Wrappers {

  datatype Option<+T> = None | Some(value: T)
}
