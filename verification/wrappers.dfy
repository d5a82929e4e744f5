/** An optional value, used where the component can meet a JavaScript `NaN`. */
module Wrappers {

  datatype Option<+T> = None | Some(value: T)
}
