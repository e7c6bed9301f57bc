/** An optional value, used for JavaScript's NaN and for "no value". */
module Wrappers {

  datatype Option<+T> = None | Some(value: T)
}
