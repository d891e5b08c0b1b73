/** The optional value used wherever the PHP code yields a string or null. */
module Wrappers {

  datatype Option<+T> = None | Some(value: T)

}
