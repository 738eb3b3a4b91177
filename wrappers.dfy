/** Optional values: `None` stands for an absent key or for stored data that does not exist. */
module Wrappers {
  datatype Option<+T> = None | Some(value: T)
}
