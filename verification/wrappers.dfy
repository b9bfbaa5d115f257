/** The optional value the driver's Python code expresses with `None`. */
module Wrappers {

  datatype Option<+T> = None | Some(value: T)
}
