/** The optional-value datatype the model uses for lookups that may fail
    (C#'s `TryGetValue` pattern) and for searches that may run out of fuel. */
module Wrappers {

  datatype Option<+T> = None | Some(value: T)

}
