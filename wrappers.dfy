/** The optional value used for database rows that may be absent and for
    the optional arguments of the screen handlers. */
module Wrappers {

  datatype Option<+T> = None | Some(value: T)
}
