/** Optional values, used for the nullable food reference of a fish and for index searches. */
module Wrappers {

  datatype Option<+T> = None | Some(value: T)
}
