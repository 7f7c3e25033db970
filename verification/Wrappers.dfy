/** Optional values, used for the outcomes that the scripts can fail to produce
    (a parse that throws, a regular expression that does not match). */
module Wrappers {

  datatype Option<+T> = None | Some(value: T)
}
