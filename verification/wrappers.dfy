/** The optional value used throughout the model: a JavaScript `null`
    (no food yet, no recorded touch, no direction emitted) becomes `None`. */
module Wrappers {

  datatype Option<+T> = None | Some(value: T)

}
