/** The error values of the translator (its `errors` module) and the result
    shapes the model uses for fallible operations and for panics. */
module Errors {

  datatype Error =
    | UnsupportApi          // `UnsupportApiError`: the `api` option names no provider
    | UnsupportOs           // `UnsupportOsError`: neither Linux nor Windows
    | DeepLEmptyAuthKey     // `DeepLEmptyAuthKeyError`: no DeepL key was given
    | RequestFailed         // an error of the HTTP client or of JSON decoding, passed on by `?`

  datatype Option<T> = None | Some(value: T)

  datatype Result<T> = Ok(value: T) | Err(error: Error)

  /** What a computation that may `panic!` (or `unwrap` a `None`) ends in. */
  datatype Outcome<T> = Returned(value: T) | Panicked(message: string)
}
