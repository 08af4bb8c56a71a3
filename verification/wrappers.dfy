/** An optional value, as returned by a cache read or a parser. */
module Wrappers {

  datatype Option<+T> = None | Some(value: T)
}
