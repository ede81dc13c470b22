/** The usual Some/None datatype, standing in for JavaScript's null and
    for operations that either yield a value or throw. */
module Wrappers {

  datatype Option<+T> = None | Some(value: T)
}
