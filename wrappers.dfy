/** The optional value used for spreadsheet cells and for optional column bindings. */
module Wrappers {

  /** `None` stands for a missing value (Python `None`, or a pandas NaN cell). */
  datatype Option<+T> = None | Some(value: T)
}
