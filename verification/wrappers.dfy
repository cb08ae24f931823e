/** The optional-value datatype used throughout the model. */
module Wrappers {

  /** `None` stands for a regex that did not match, an absent display name,
      or a capture group that did not take part in a match. */
  datatype Option<+T> = None | Some(value: T)
}
