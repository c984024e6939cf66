/** The Option datatype used for values the source may find missing (null/undefined). */
module Wrappers {

  datatype Option<+T> = None | Some(value: T)

}
