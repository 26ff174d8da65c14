/** The option and result types shared by every module of the model. */
module Wrappers {

  /** An optional value: a form field that is absent from `cleaned_data`, a missing file, ... */
  datatype Option<+T> = None | Some(value: T)

  /** Either the value a validator or view produces, or the reason it refused. */
  datatype Result<+R, +E> = Success(value: R) | Failure(error: E)
}
