/** The optional value used wherever the model can come back empty-handed. */
module Wrappers {

  datatype Option<+T> = None | Some(value: T)
}
