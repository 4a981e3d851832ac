/** The optional value used for nullable integers (`int?`) and failed draws. */
module Opt {
  datatype Option<+T> = None | Some(value: T)
}
