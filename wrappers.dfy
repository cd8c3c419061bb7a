/** The optional value used wherever the source has `T | null` or a lookup that may miss. */
module Wrappers {

  datatype Option<+T> = None | Some(value: T)
}
