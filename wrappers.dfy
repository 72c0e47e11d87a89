/** The optional value used for PHP's `null`-or-something fields and options. */
module Wrappers {

  datatype Option<+T> = None | Some(value: T)
}
