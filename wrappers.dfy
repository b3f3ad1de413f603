/** The optional value used by the recognisers: a pattern either matches (with its captures) or not. */
module Wrappers {

  datatype Option<+T> = None | Some(value: T)
}
