/** The optional-value datatype the model uses for lookups that may fall off the board. */
module Wrappers {

  datatype Option<+T> = None | Some(value: T)
}
