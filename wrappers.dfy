/** Optional values: the persisted list is either present under its key or absent. */
module Wrappers {

  datatype Option<+T> = None | Some(value: T)
}
