/** Optional values, used for the Python `None` results of the model. */
module Wrappers {

  datatype Option<+T> = None | Some(value: T)
}
