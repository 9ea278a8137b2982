/** The optional value used for the register table's callback slots and for
    the peripheral request a handler may or may not issue. */
module Wrappers {

  datatype Option<+T> = None | Some(value: T)
}
