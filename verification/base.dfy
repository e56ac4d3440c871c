/** Shared failure-carrying values of the exporter model.

    Every error the exporter checks is fatal: the process logs it and exits.
    The model therefore only needs to know WHICH stage failed, which `Fatal`
    names. The errors the exporter ignores have no counterpart here.
 */
module Base {

  datatype Option<+T> = None | Some(value: T)

  datatype Result<+T, +E> = Success(value: T) | Failure(error: E)

  /** Why a decoded JSON value was refused. */
  datatype DecodeCause =
    | UnknownField(key: string)   // a key outside the struct's tag set, under strict decoding
    | MalformedJson               // a syntax error, or a top-level value that is not an object or null

  /** The stage whose error ends the run. */
  datatype Fatal =
    | ConfigError                 // the DAYS setting is not a decimal int64
    | FetchError                  // transport failure or a status other than 200 OK
    | ExtractError                // the zip container, a zip entry or its gzip framing is unreadable
    | DecodeError(cause: DecodeCause)
}
