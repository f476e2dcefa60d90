/** The usual optional value: PHP's nullable reference becomes `Option`. */
module Wrappers {

  datatype Option<+T> = None | Some(value: T)
}
