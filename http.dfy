/**
 * What the web server answers, as the downloader sees it. Requests are
 * not made here: a `Server` says, per URL, how a HEAD request and a
 * streamed GET request end.
 */
module Http {
  import opened Bytes

  /** The `Content-Length` header, as `int(headers.get(..., 0))` meets it. */
  datatype HeaderValue =
    | Absent            // no header: the default 0 is used
    | Integer(n: int)   // a header `int()` accepts (it may be negative)
    | NotAnInteger      // a header `int()` rejects with a ValueError

  /** A HEAD request: `HeadFailed` is a transport error or a 4xx/5xx status, which `raise_for_status` rejects. */
  datatype HeadReply = HeadFailed | HeadOk(contentLength: HeaderValue)

  /** How the body loop of a GET request ends. */
  datatype StreamEnd =
    | Completed      // every chunk arrived and was written
    | StreamBroken   // the connection failed after the listed chunks (a RequestException)
    | WriteFailed    // writing to disk failed after the listed chunks (an IOError)
    | OpenFailed     // the output file could not be opened (an IOError); nothing is written

  /**
   * A streamed GET request. `RequestFailed` is a transport error or a
   * 4xx/5xx status, raised before any header is read; `chunks` are the
   * pieces of the body that reach the file before `end`.
   */
  datatype GetReply =
    | RequestFailed
    | Responded(contentLength: HeaderValue, chunks: seq<Chunk>, end: StreamEnd)
  {
    /** The output file is opened (created or truncated) and the chunks are written. */
    predicate Opens() {
      Responded? && !contentLength.NotAnInteger? && end != OpenFailed
    }

    /** The whole body was written. */
    predicate Completes() {
      Opens() && end == Completed
    }
  }

  /** The remote side: the replies to HEAD and GET for each URL. */
  datatype Server = Server(head: string -> HeadReply, get: string -> GetReply)
}
