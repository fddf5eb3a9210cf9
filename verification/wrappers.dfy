/** Optional values, used for lookups in a record and for the record set a
    client holds. */
module Wrappers {

  datatype Option<+T> = None | Some(value: T)
}
