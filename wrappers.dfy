/** The optional-value datatype used throughout the model: `None` stands for
    JavaScript's `null` (no regex match, no published images). */
module Wrappers {

  datatype Option<+T> = None | Some(value: T)
}
