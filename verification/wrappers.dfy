/** The optional value used where the source returns `undefined`/`null` or stores NULL. */
module Wrappers {

  datatype Option<+T> = None | Some(value: T)
}
