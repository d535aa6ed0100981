/** Optional values, used where the source returns `undefined`, returns early or has nothing to report. */
module Wrappers {

  datatype Option<+T> = None | Some(value: T)
}
