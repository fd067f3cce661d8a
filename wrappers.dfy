/** The optional-value datatype shared by the modules of the model. */
module Wrappers {

  /** A value that may be absent: `None` stands for Python's `None`, or for an
      operation that raised instead of returning. */
  datatype Option<+T> = None | Some(value: T)
}
