/** The optional value used where the C# code holds a possibly-null reference. */
module Wrappers {

  /** `None` stands for a `null` reference, `Some(v)` for a live one. */
  datatype Option<+T> = None | Some(value: T)
}
