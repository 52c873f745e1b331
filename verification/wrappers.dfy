/** Optional values used throughout the model. */
module Wrappers {

  /** A value that may be absent: a missing environment variable, a search
      that found nothing, or a string that does not decode. */
  datatype Option<+T> = None | Some(value: T)
}
