/** Optional values: an absent query parameter, body field, lookup result or timestamp. */
module Wrappers {

  datatype Option<+T> = None | Some(value: T)

}
