/** Optional values: SQL NULLs and Go's nil pointers. */
module Wrappers {
  datatype Option<+T> = None | Some(value: T)

  /** derefStr: a NULL text reads as the empty one. */
  function Deref(s: Option<string>): string {
    if s.None? then "" else s.value
  }
}
