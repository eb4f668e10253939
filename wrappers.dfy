/** The optional value used for nullable columns, missing rows and failed lookups. */
module Wrappers {
  datatype Option<+T> = None | Some(value: T)
}
