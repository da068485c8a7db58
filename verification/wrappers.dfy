/** The option type used where the script stops short of a value. */
module Wrappers {

  datatype Option<+T> = None | Some(value: T)

}
