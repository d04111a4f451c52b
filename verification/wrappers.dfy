/** The optional value returned by the store's `find_one` lookups. */
module Wrappers {

  datatype Option<+T> = None | Some(value: T)
}
