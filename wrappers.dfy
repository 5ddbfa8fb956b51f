/** An optional value: a cell of the strategy table that pandas reads as
    missing (NaN) is `None`. */
module Wrappers {
  datatype Option<T> = None | Some(value: T)
}
