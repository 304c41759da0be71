/** The optional-value datatype used for fields the JavaScript code tests for
    truthiness (`item.rating && …`) and for results that may be `null`. */
module Wrappers {

  datatype Option<+T> = None | Some(value: T)
}
