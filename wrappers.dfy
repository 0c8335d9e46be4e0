/** The optional value used for nullable cells and for metrics the dashboard may show as "N/A". */
module Wrappers {
  datatype Option<+T> = None | Some(value: T)
}
