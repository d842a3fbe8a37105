/** Failure-carrying wrapper shared by the other modules. */
module Wrappers {

  /** An optional value: `None` stands for an absent value or a failed step. */
  datatype Option<+T> = None | Some(value: T)
}
