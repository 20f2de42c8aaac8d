/** Values that may be absent: an optional request field, a load that threw. */
module Wrappers {

  datatype Option<+T> = None | Some(value: T)
}
