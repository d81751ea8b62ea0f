/** The optional result shared by the parser and the form reader: `null` / NaN on the JavaScript side. */
module Wrappers {
  datatype Option<+T> = None | Some(value: T)
}
