/** The optional value used throughout the model for Python's `None`-or-value
    results (a menu choice that was not recognised, the missing previous
    difference before the first guess). */
module Wrappers {

  datatype Option<+T> = None | Some(value: T)
}
