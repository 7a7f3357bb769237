/** Small helper datatypes shared by the other modules. */
module Wrappers {

  /** A value that may be absent; `None` stands for JavaScript's `undefined`
      (or `NaN`) wherever the solver reads a missing key or index. */
  datatype Option<+T> = None | Some(value: T)
}
