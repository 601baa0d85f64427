/** The optional-value type used wherever the source returns `undefined`, `null` or "not found". */
module Wrappers {
  datatype Option<+T> = None | Some(value: T)
}
