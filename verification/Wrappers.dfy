/** The two-case container used for pointers that may be NULL and for steps that may be disabled. */
module Wrappers {

  datatype Option<+T> = None | Some(value: T)
}
