/** Small result types shared by the model. */
module Wrappers {

  /** A value that may be absent, used for parsers that can reject their input. */
  datatype Option<+T> = None | Some(value: T)

  /** The result of a check that either passes or reports one error. */
  datatype Outcome<+E> = Pass | Fail(error: E)
}
