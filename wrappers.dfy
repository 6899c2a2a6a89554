/** Optional values: the model's counterpart of a JavaScript `null` or a Python `None`. */
module Wrappers {

  datatype Option<+T> = None | Some(value: T)
}
