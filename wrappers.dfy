/** Optional values: the model's counterpart of `esphome::optional`. */
module Wrappers {

  datatype Option<+T> = None | Some(value: T)
}
