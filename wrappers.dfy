/** The usual optional-value datatype: PHP's `null` result becomes `None`. */
module Wrappers {

  datatype Option<+T> = None | Some(value: T)
}
