/** Optional values, for attributes a Plex object may lack. */
module Wrappers {
  datatype Option<+T> = None | Some(value: T)
}
