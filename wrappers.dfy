/** Python's `None`-or-value results, as used by the column search and the tool locator. */
module Wrappers {

  datatype Option<+T> = None | Some(value: T)
}
