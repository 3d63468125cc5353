/** The optional value the store's lookups and coercions return. */
module Wrappers {

  /** `None` stands for Python's `None` result or a failed conversion. */
  datatype Option<+T> = None | Some(value: T)
}
