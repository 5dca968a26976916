/** The response the handler builds: a status, a JSON body and a set of headers. */
module Http {

  /** Where the Last-Modified date comes from; the date formatting itself is not modelled. */
  datatype DateSource =
    | CommitterDate(raw: string)  // the committer date of a listed commit
    | RequestClock                // `Date.now()` at the time of the request

  /** A header value: literal text, or an HTTP date rendered from a source. */
  datatype HeaderValue = Text(text: string) | HttpDate(source: DateSource)

  /** The three JSON body shapes the handler serialises. */
  datatype Body =
    | ErrorBody(error: string)
    | ErrorWithDetails(error: string, details: string)
    | DiffBody(diff: string)

  datatype Response = Response(status: int, body: Body, headers: map<string, HeaderValue>)

  const ContentType := "Content-Type"
  const CacheControl := "Cache-Control"
  const ETag := "ETag"
  const Vary := "Vary"
  const LastModified := "Last-Modified"

  const JsonContent := "application/json"
  /** One week, 604800 seconds, for browsers and shared caches alike. */
  const CacheOneWeek := "public, max-age=604800, s-maxage=604800"
  const DoNotCache := "no-cache, no-store, must-revalidate"
  const VaryOnEncoding := "Accept-Encoding"
}
