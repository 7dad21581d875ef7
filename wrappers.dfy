/** Option: a value that may be absent (JavaScript `null` / an empty string). */
module Wrappers {
  datatype Option<+T> = None | Some(value: T)
}
