/** The optional value used for `Nullable.GetUnderlyingType` and dictionary lookups. */
module Wrappers {
  datatype Option<+T> = None | Some(value: T)
}
