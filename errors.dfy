/**
 * The error enumerations of the synchronizer. Failures raised inside the
 * HTTP client and the JSON decoder are opaque here: they carry only a
 * message.
 */
module Errors {

  /** A failure reported by the HTTP client (connection, I/O, body read). */
  datatype HttpError = HttpError(message: string)

  /** A failure reported by the JSON decoder. */
  datatype JsonError = JsonError(message: string)

  /** Errors while fetching the collection summary or an item page. */
  datatype InformationRetrievalError =
    | InfoHttpRequestError(http: HttpError)
    | InfoJsonParseError(json: JsonError)
    | PageDataNotFound
    | DataBlobNotFound

  /** Errors while paginating through the collection. */
  datatype ReleaseRetrievalError =
    | ReleaseHttpRequestError(http: HttpError)
    | ReleaseJsonParseError(json: JsonError)
    | ReleaseNoDownloadLinksFound

  /** Errors while turning a digital item into a downloadable URL. */
  datatype DigitalDownloadError =
    | DownloadHttpRequestError(http: HttpError)
    | DownloadJsonParseError(json: JsonError)
    | JsonBodyNotFound
    | NoDownloadLinksFound
    | NoLinkFound
    | RequestedFormatLinkNotFound
}
