/** The optional-value type used for the pending timer and the glasses badge. */
module Wrappers {

  /** Either nothing or exactly one value. */
  datatype Option<+T> = None | Some(value: T)
}
