/** The optional-value datatype the models use for "parsed or skipped". */
module Wrappers {

  datatype Option<+T> = None | Some(value: T)

}
