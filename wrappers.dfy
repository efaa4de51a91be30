/** Optional values: a spreadsheet cell that pandas reads as NaN/None, and the
    `None` that the cleaning functions return for a rejected value. */
module Wrappers {

  datatype Option<+T> = None | Some(value: T)
}
