/** The optional and failing results used across the model. A source function that throws,
    or that returns false beside an out parameter, yields `None`. */
module Wrappers {
  datatype Option<+T> = None | Some(value: T)
}
