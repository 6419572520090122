/** The optional value used wherever the source answers "found or not". */
module Wrappers {

  datatype Option<+T> = None | Some(value: T)

}
