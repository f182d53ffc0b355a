/** An optional value, for lookups and decodes that may fail. */
module Wrappers {

  datatype Option<+T> = None | Some(value: T)
}
