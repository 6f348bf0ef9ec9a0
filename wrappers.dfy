/** Optional values: the model of a Python function that returns a value or `None`. */
module Wrappers {

  datatype Option<+T> = None | Some(value: T)

}
