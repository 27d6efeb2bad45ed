/** The optional value used for pandas' missing values and for lookups that may fail. */
module Wrappers {

  datatype Option<+T> = None | Some(value: T)

}
