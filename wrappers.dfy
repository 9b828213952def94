/** An optional value, used where the applet holds "no controller" or a parse may fail. */
module Wrappers {
  datatype Option<+T> = None | Some(value: T)
}
