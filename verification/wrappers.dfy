/** A value that may be missing. Each use in the model says which JavaScript
    absence it stands for (`undefined`, `null`, or either). */
module Wrappers {

  datatype Option<T> = None | Some(value: T)
}
