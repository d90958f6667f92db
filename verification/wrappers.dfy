/** The optional value used for parse results and for "no minimum seen yet". */
module Wrappers {

  datatype Option<+T> = None | Some(value: T)

}
