/** Values that may be missing: the source's null pointers and empty mailboxes. */
module Wrappers {

  datatype Option<T> = None | Some(value: T)

}
