/** The optional value used where the source returns "nothing" or a dict lookup may miss. */
module Wrappers {
  datatype Option<+T> = None | Some(value: T)
}
