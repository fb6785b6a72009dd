/** The optional-value datatype used for JavaScript's "property may be absent". */
module Wrappers {

  datatype Option<+T> = None | Some(value: T)
}
