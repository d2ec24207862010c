/** The absent-or-present result of a lookup: the model of a nullable reference. */
module Wrappers {

  /** `None` stands for the `null` a lookup returns when it finds nothing. */
  datatype Option<+T> = None | Some(value: T)
}
