/** The optional-value datatype used for the .NET reference types that may be null. */
module Wrappers {

  /** `None` stands for a null reference, `Some(v)` for a non-null value `v`. */
  datatype Option<+T> = None | Some(value: T)
}
