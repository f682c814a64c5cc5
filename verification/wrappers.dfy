/** The optional-value wrapper shared by the controller model. */
module Wrappers {

  /** An optional value: `None` stands for JavaScript's `undefined`. */
  datatype Option<+T> = None | Some(value: T)
}
