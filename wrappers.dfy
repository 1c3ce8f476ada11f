/** The Option datatype used for Java references that may be null and for
    Jackson nodes that may be the missing node. */
module Wrappers {

  datatype Option<+T> = None | Some(value: T)
}
