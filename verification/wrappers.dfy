/** Optional values: the engine's "" for an unset cell and its `null` results. */
module Wrappers {

  datatype Option<+T> = None | Some(value: T)
}
