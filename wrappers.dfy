/** The optional value used for the printer's optional arguments and fields. */
module Wrappers {

  datatype Option<+T> = None | Some(value: T)

}
