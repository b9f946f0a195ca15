/** The optional value that stands for PHP's `null` results. */
module Wrappers {

  datatype Option<+T> = None | Some(value: T)
}
