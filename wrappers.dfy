/** Optional values (Python's `Optional[...]` / `None`). */
module Wrappers {
  datatype Option<+T> = None | Some(value: T)
}
