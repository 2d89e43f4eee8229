/** The optional value every matcher returns: a regex that does not match gives None. */
module Wrappers {

  datatype Option<+T> = None | Some(value: T)
}
