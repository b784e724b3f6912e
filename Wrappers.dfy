/** Optional values, used where the source fails instead of returning. */
module Wrappers {

  datatype Option<+T> = None | Some(value: T)

}
