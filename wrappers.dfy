/** The optional value used where the source returns `null` or keeps a nullable state slot. */
module Wrappers {

  datatype Option<+T> = None | Some(value: T)
}
