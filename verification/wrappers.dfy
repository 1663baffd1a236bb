/** The optional-value datatype the rest of the model uses for "not found"
    and "malformed input" outcomes. */
module Wrappers {

  datatype Option<+T> = None | Some(value: T)
}
