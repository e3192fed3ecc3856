/** The absence-or-presence wrapper used for the C# `null` response. */
module Wrappers {
  datatype Option<+T> = None | Some(value: T)
}
