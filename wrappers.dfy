// The optional value shared by the models: a lookup, a parse or a clip
// that may have no answer.
module Wrappers {

  datatype Option<T> = None | Some(value: T)
}
