/** Small result wrappers shared by the validator modules. */
module Wrappers {

  datatype Option<+T> = None | Some(value: T)

  /** How a JavaScript call ends: it returns a value, or a TypeError escapes from it. */
  datatype Completion<+T> = Returned(value: T) | Thrown
}
