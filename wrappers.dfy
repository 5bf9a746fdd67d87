/** The optional value returned by `str.find`-like searches and by the regex matcher. */
module Wrappers {

  datatype Option<+T> = None | Some(value: T)
}
