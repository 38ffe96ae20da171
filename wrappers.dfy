/** Optional values: a record that LINQ's FirstOrDefault may not find, a match that may not exist. */
module Wrappers {

  datatype Option<+T> = None | Some(value: T)
}
