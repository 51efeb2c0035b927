/** Optional values, standing for the nullable references of the modelled code. */
module Wrappers {

  /** `None` plays the part of a null reference. */
  datatype Option<+T> = None | Some(value: T)
}
