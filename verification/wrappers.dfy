/** The optional value used across the model (an absent form field, a thrown
    URIError, a link without an href attribute). */
module Wrappers {

  datatype Option<+T> = None | Some(value: T)
}
