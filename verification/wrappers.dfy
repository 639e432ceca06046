/** The optional value used wherever the modelled code returns Python's None. */
module Wrappers {

  /** Either nothing (the code's None) or one value. */
  datatype Option<+T> = None | Some(value: T)
}
