/** An optional value: the result of a decoder that may refuse its input, and the
    duration a click reports only when it turns the fan off. */
module Wrappers {

  datatype Option<+T> = None | Some(value: T)
}
