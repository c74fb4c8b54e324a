/** Optional results: the model's counterpart of `java.util.Optional`. */
module Wrappers {

  datatype Option<+T> = None | Some(value: T)
}
