/** The optional-value type used throughout the calendar model. */
module Wrappers {

  /** `None` stands for a missing or unparseable value, or for an exception
      the modelled code raises. */
  datatype Option<+T> = None | Some(value: T)
}
