/** The optional value used for a sensor reading that may have failed and for an
    override colour that may be absent. */
module Wrappers {
  datatype Option<+T> = None | Some(value: T)
}
