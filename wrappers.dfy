/** The absence marker used for a digest that could not be computed. */
module Wrappers {

  datatype Option<+T> = None | Some(value: T)

}
