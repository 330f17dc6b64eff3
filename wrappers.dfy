/** The optional value and the success-or-failure value used throughout the
    model: a date that did not parse, a select box with no value, a search
    that found nothing, a form the save handler turned away. */
module Wrappers {

  datatype Option<+T> = None | Some(value: T)

  datatype Result<+R, +E> = Success(value: R) | Failure(error: E)

}
