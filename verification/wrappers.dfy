/** The "value or nothing" type used for pandas' NaT and NaN sentinels. */
module Wrappers {
  datatype Option<+T> = None | Some(value: T)
}
