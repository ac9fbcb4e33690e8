/** The optional value used for NULL columns, absent form parts and failed parses. */
module Wrappers {
  datatype Option<+T> = None | Some(value: T)
}
