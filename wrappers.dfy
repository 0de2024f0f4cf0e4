/** The optional value used where the source has `T | null` or an optional argument. */
module Wrappers {

  datatype Option<+T> = None | Some(value: T)

}
