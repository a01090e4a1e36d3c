/** Option datatype standing in for C#'s nullable references. */
module Wrappers {

  /** `None` is a null reference, `Some(v)` a non-null one. */
  datatype Option<+T> = None | Some(value: T)
}
