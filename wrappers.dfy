/** The optional-value datatype used for missing spreadsheet cells and failed matches. */
module Wrappers {

  datatype Option<+T> = None | Some(value: T)

}
