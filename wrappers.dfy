/** The optional value used for every partial result in this model: a value
    that may be absent (a pandas NaN, a Python `None`, a failed parse). */
module Wrappers {

  datatype Option<+T> = None | Some(value: T)
}
