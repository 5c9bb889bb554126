/** Option type used for lookups and for the abstract JSON parser. */
module Wrappers {

  datatype Option<+T> = None | Some(value: T)

}
