/** Optional values, for a header that may be absent, an argument that may be
    omitted and a parse that may fail. */
module Wrappers {

  datatype Option<+T> = None | Some(value: T)
}
