/** The optional-value datatype used wherever the modelled code returns a
    value together with an error (Go's `(T, error)` pairs) or looks up a row
    that may be absent. */
module Wrappers {

  datatype Option<+T> = None | Some(value: T)
}
