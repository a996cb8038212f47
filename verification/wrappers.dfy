/** The optional-value datatype used throughout the model. */
module Wrappers {

  /** `None` stands for an absent value: a missing optional field, or a
      quotient that JavaScript would report as a non-finite number. */
  datatype Option<+T> = None | Some(value: T)
}
