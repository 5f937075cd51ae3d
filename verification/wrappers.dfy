/** The optional value used across the model: a missing dictionary entry, a lookup
    that found nothing, or a library parser that raised. */
module Wrappers {

  datatype Option<+T> = None | Some(value: T)
}
