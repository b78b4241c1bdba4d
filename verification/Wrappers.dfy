/** An optional value: a C pointer that may be NULL, a system call that may be refused. */
module Wrappers {
  datatype Option<+T> = None | Some(value: T)
}
