/** Optional values. A reading that is missing, or a statistic that is undefined
    (the NaN of the original program), is `None`. */
module Wrappers {
  datatype Option<+T> = None | Some(value: T)
}
