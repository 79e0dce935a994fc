/** Values that may be absent. */
module Wrappers {

  /** An option type for values that may be absent (a failed match, a non-numeric id,
      a preference never written). */
  datatype Option<+T> = None | Some(value: T)
}
