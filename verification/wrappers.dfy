/** The shared option type: a column that may be null, a lookup that may fail. */
module Wrappers {
  datatype Option<T> = None | Some(value: T)
}
