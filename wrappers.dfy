/** Small helper datatypes shared by the other modules. */
module Wrappers {

  /** An optional value: `None` where the source yields `undefined` or sends nothing. */
  datatype Option<+T> = None | Some(value: T)
}
