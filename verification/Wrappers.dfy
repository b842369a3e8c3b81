/** The absent-or-present value that stands for PHP's `null`-or-value and `false`-or-value returns. */
module Wrappers {

  datatype Option<+T> = None | Some(value: T)

}
