/** Failure-carrying values shared by every module of the model. */
module Wrappers {

  /** A value that may be absent (`null` / `undefined` in the source). */
  datatype Option<+T> = None | Some(value: T)

  /** The outcome of an operation that may throw. */
  datatype Result<+T, +E> = Ok(value: T) | Err(error: E)

  /** The kinds of error the modelled code raises. */
  datatype Error =
    | NotFound             // reading metadata that was never written
    | CorruptIndex         // a serialized index the search library rejects
    | NotReady             // a read before the service became ready
    | UpstreamUnavailable  // the sitemap could not be fetched
}
