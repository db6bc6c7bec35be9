/** The optional value used for PHP's "value or false/null" results. */
module Wrappers {

  datatype Option<+T> = None | Some(value: T)
}
