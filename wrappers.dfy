/** Optional values: `None` stands for a missing SQL row or for a pandas NaN/inf. */
module Wrappers {
  datatype Option<+T> = None | Some(value: T)
}
