/** Option stands for a value that may be absent: JavaScript's `null`, or a parse that threw. */
module Wrappers {
  datatype Option<+T> = None | Some(value: T)
}
