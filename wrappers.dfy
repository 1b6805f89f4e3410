/** The optional value used wherever the shell works with "maybe absent" (a NULL pointer, a -1 index). */
module Wrappers {
  datatype Option<+T> = None | Some(value: T)
}
