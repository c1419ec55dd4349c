/** The optional value used wherever the analysis has a "not computable" or
    "pattern absent" outcome instead of an error. */
module Wrappers {

  datatype Option<+T> = None | Some(value: T)
}
