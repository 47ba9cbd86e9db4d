/** The optional value used throughout the model: `None` stands for a missing
    spreadsheet cell (pandas' NaN) or for Python's `None`. */
module Wrappers {

  datatype Option<+T> = None | Some(value: T)
}
