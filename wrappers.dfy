/** Option, for lookups that may find nothing (a query on an empty collection). */
module Wrappers {

  datatype Option<+T> = None | Some(value: T)

}
