/** The one optional-value type the model needs. */
module Wrappers {

  /** `None` stands for JavaScript's `undefined` wherever the source can produce it. */
  datatype Option<+T> = None | Some(value: T)
}
