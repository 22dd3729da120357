/** The optional-value type used for partial readers. */
module Wrappers {

  datatype Option<+T> = None | Some(value: T)
}
