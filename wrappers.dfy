/** The optional value used for labels, fail links and scan results. */
module Wrappers {
  datatype Option<+T> = None | Some(value: T)
}
