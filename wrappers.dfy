/** Optional values, for PHP array slots that may be unset. */
module Wrappers {

  datatype Option<+T> = None | Some(value: T)
}
