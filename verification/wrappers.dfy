/** Optional values: the model's stand-in for a pointer that may be NULL or a
    field that has not been written yet. */
module Wrappers {

  datatype Option<+T> = None | Some(value: T)
}
