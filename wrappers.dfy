/** Optional values: `None` stands for the Java `null` that the table walk returns or stores. */
module Wrappers {

  datatype Option<+T> = None | Some(value: T)
}
