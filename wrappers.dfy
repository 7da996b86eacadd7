/** The nullable values of the source (a `String` that may be `null`, a `Point`
    field that may be `null`) are modelled by this Option datatype. */
module Wrappers {

  datatype Option<+T> = None | Some(value: T)
}
